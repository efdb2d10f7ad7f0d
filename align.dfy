/** The per-block optimiser of `find_permutation`: the objective, one greedy round of column swaps
    (`step`) and the loop that repeats rounds until one changes nothing. */
module Align {
  import opened Sets
  import opened Fixpoint

  /** A dense block of overlap magnitudes, row by row. */
  type Block = seq<seq<real>>

  /** What the loop carries: the block with its columns rearranged, and the entries of the
      permutation rearranged the same way. */
  datatype Arrangement = Arrangement(block: Block, perm: seq<nat>)

  /** Every row is as long as the block is tall. */
  predicate Square(b: Block)
  {
    forall r :: 0 <= r < |b| ==> |b[r]| == |b|
  }

  /** Line 78: the weight of entry (r, c), its squared distance from the diagonal. */
  function Weight(r: nat, c: nat): (w: real)
    ensures w >= 0.0
    ensures w == 0.0 <==> r == c
  {
    ((r - c) * (r - c)) as real
  }

  /** Line 80 for row `r`: the weighted sum of its entries. */
  function RowObjective(row: seq<real>, r: nat): real
  {
    if row == [] then 0.0 else RowObjective(row[..|row| - 1], r) + row[|row| - 1] * Weight(r, |row| - 1)
  }

  /** Line 80: the weighted sum of all entries of the block. */
  function Objective(b: Block): real
  {
    if b == [] then 0.0 else Objective(b[..|b| - 1]) + RowObjective(b[|b| - 1], |b| - 1)
  }

  /** Lines 93-94: exchange the entries at positions i and j (no change when either is out of
      range). */
  function Swap<T>(xs: seq<T>, i: nat, j: nat): (ys: seq<T>)
    ensures |ys| == |xs|
  {
    if i < |xs| && j < |xs| then xs[i := xs[j]][j := xs[i]] else xs
  }

  /** An exchange moves the two entries and leaves every other one in place. */
  lemma SwapEntries<T>(xs: seq<T>, i: nat, j: nat)
    requires i < |xs| && j < |xs|
    ensures Swap(xs, i, j)[i] == xs[j] && Swap(xs, i, j)[j] == xs[i]
    ensures forall k :: 0 <= k < |xs| && k != i && k != j ==> Swap(xs, i, j)[k] == xs[k]
  {
  }

  /** Line 93: exchange columns i and j of the block. */
  function SwapColumns(b: Block, i: nat, j: nat): (c: Block)
    ensures |c| == |b|
  {
    seq(|b|, r requires 0 <= r < |b| => Swap(b[r], i, j))
  }

  /** Lines 92-99: exchange columns i and j of the block and entries i and j of the permutation,
      and keep the result only when its objective is strictly smaller. */
  function Consider(obj: Block -> real, best: Arrangement, i: nat, j: nat): Arrangement
  {
    var candidate := Arrangement(SwapColumns(best.block, i, j), Swap(best.perm, i, j));
    if obj(candidate.block) < obj(best.block) then candidate else best
  }

  /** Lines 89-99 from position (i, j) of the double loop on, `best` being the arrangement accepted
      so far: a swap of two columns (and of the same two permutation entries) is kept only when it
      makes the objective strictly smaller; later swaps start from the last one kept. */
  function StepFrom(obj: Block -> real, m: nat, best: Arrangement, i: nat, j: nat): Arrangement
    decreases m - i, m - j
  {
    if i >= m then best
    else if j >= m then StepFrom(obj, m, best, i + 1, 0)
    else if i == j then StepFrom(obj, m, best, i, j + 1)
    else StepFrom(obj, m, Consider(obj, best, i, j), i, j + 1)
  }

  /** Lines 84-101: one round over all ordered pairs of distinct columns of a block of size
      `block.shape[0]`. */
  function StepResult(a: Arrangement): Arrangement
  {
    StepFrom(Objective, |a.block|, a, 0, 0)
  }

  /** Lines 84-101, the loops themselves; `obj` is the objective of line 80 the round closes over. */
  method Step(obj: Block -> real, a: Arrangement) returns (r: Arrangement)
    ensures r == StepFrom(obj, |a.block|, a, 0, 0)
  {
    var size := |a.block|;
    var best := a;
    var bestValue := obj(a.block);
    for i := 0 to size
      invariant StepFrom(obj, size, best, i, 0) == StepFrom(obj, size, a, 0, 0)
      invariant bestValue == obj(best.block)
    {
      for j := 0 to size
        invariant StepFrom(obj, size, best, i, j) == StepFrom(obj, size, a, 0, 0)
        invariant bestValue == obj(best.block)
      {
        if i != j {
          var block := SwapColumns(best.block, i, j);
          var perm := Swap(best.perm, i, j);
          if obj(block) < bestValue {
            best := Arrangement(block, perm);
            bestValue := obj(block);
          }
        }
      }
    }
    r := best;
  }

  /** No single exchange of two columns lowers the objective. */
  ghost predicate LocallyOptimal(obj: Block -> real, b: Block)
  {
    forall i, j :: 0 <= i < |b| && 0 <= j < |b| && i != j ==> obj(b) <= obj(SwapColumns(b, i, j))
  }

  /** One visit either keeps the arrangement or lowers the objective strictly. */
  lemma ConsiderNoWorse(obj: Block -> real, best: Arrangement, i: nat, j: nat)
    ensures Consider(obj, best, i, j) != best ==> obj(Consider(obj, best, i, j).block) < obj(best.block)
  {
  }

  /** A round either keeps the arrangement or ends strictly lower than where it started. */
  lemma {:induction false} StepFromNoWorse(obj: Block -> real, m: nat, best: Arrangement, i: nat, j: nat)
    ensures StepFrom(obj, m, best, i, j) != best ==> obj(StepFrom(obj, m, best, i, j).block) < obj(best.block)
    ensures obj(StepFrom(obj, m, best, i, j).block) <= obj(best.block)
    decreases m - i, m - j
  {
    if i < m {
      if j >= m {
        StepFromNoWorse(obj, m, best, i + 1, 0);
      } else if i == j {
        StepFromNoWorse(obj, m, best, i, j + 1);
      } else {
        ConsiderNoWorse(obj, best, i, j);
        StepFromNoWorse(obj, m, Consider(obj, best, i, j), i, j + 1);
      }
    }
  }

  /** From a locally optimal block no swap is ever kept. */
  lemma {:induction false} StepFromKeepsOptimal(obj: Block -> real, m: nat, best: Arrangement, i: nat, j: nat)
    requires m == |best.block| && LocallyOptimal(obj, best.block)
    ensures StepFrom(obj, m, best, i, j) == best
    decreases m - i, m - j
  {
    if i < m {
      if j >= m {
        StepFromKeepsOptimal(obj, m, best, i + 1, 0);
      } else {
        StepFromKeepsOptimal(obj, m, best, i, j + 1);
      }
    }
  }

  /** If the swap of columns i0 and j0 would lower the objective of `best` and the round has not
      passed that pair yet, the round ends strictly lower. */
  lemma {:induction false} StepFromImproves(obj: Block -> real, m: nat, best: Arrangement, i: nat, j: nat, i0: nat, j0: nat)
    requires m == |best.block| && i0 < m && j0 < m && i0 != j0
    requires i < i0 || (i == i0 && j <= j0)
    requires obj(SwapColumns(best.block, i0, j0)) < obj(best.block)
    ensures obj(StepFrom(obj, m, best, i, j).block) < obj(best.block)
    decreases m - i, m - j
  {
    if j >= m {
      StepFromImproves(obj, m, best, i + 1, 0, i0, j0);
    } else if i == j {
      StepFromImproves(obj, m, best, i, j + 1, i0, j0);
    } else if Consider(obj, best, i, j) != best {
      ConsiderNoWorse(obj, best, i, j);
      StepFromNoWorse(obj, m, Consider(obj, best, i, j), i, j + 1);
    } else {
      StepFromImproves(obj, m, best, i, j + 1, i0, j0);
    }
  }

  /** Lines 96-99: a round changes nothing exactly when no exchange of two columns lowers the
      objective, and a round that changes something lowers it strictly. */
  lemma StepFixedIffOptimal(a: Arrangement)
    ensures StepResult(a) == a <==> LocallyOptimal(Objective, a.block)
    ensures StepResult(a) != a ==> Objective(StepResult(a).block) < Objective(a.block)
  {
    StepFromNoWorse(Objective, |a.block|, a, 0, 0);
    if LocallyOptimal(Objective, a.block) {
      StepFromKeepsOptimal(Objective, |a.block|, a, 0, 0);
    } else {
      var i0, j0 :| 0 <= i0 < |a.block| && 0 <= j0 < |a.block| && i0 != j0 &&
                    Objective(SwapColumns(a.block, i0, j0)) < Objective(a.block);
      StepFromImproves(Objective, |a.block|, a, 0, 0, i0, j0);
    }
  }

  /** Every entry of `sigma` is a position below m. */
  predicate Bounded(sigma: seq<nat>, m: nat)
  {
    forall c :: 0 <= c < |sigma| ==> sigma[c] < m
  }

  /** `sigma` lists each of 0, ..., m-1 exactly once. */
  ghost predicate IsPermutation(sigma: seq<nat>, m: nat)
  {
    |sigma| == m && Bounded(sigma, m) && forall c, d :: 0 <= c < d < m ==> sigma[c] != sigma[d]
  }

  /** The identity arrangement 0, 1, ..., m-1 (`np.arange(m)`). */
  function Identity(m: nat): (sigma: seq<nat>)
    ensures |sigma| == m && forall c :: 0 <= c < m ==> sigma[c] == c
  {
    seq(m, c => c)
  }

  /** Entry c of the result is entry sigma[c] of `xs`. */
  function Reindex<T>(xs: seq<T>, sigma: seq<nat>): (ys: seq<T>)
    requires Bounded(sigma, |xs|)
    ensures |ys| == |sigma|
  {
    seq(|sigma|, c requires 0 <= c < |sigma| => xs[sigma[c]])
  }

  /** Column c of the result is column sigma[c] of `b`. */
  function PermuteColumns(b: Block, sigma: seq<nat>): (c: Block)
    requires Square(b) && Bounded(sigma, |b|)
    ensures |c| == |b|
  {
    seq(|b|, r requires 0 <= r < |b| => Reindex(b[r], sigma))
  }

  lemma SwapBounded(sigma: seq<nat>, m: nat, i: nat, j: nat)
    requires Bounded(sigma, m)
    ensures Bounded(Swap(sigma, i, j), m)
  {
    if i < |sigma| && j < |sigma| {
      SwapEntries(sigma, i, j);
    }
  }

  /** Exchanging two entries of a permutation gives a permutation. */
  lemma SwapPermutation(sigma: seq<nat>, m: nat, i: nat, j: nat)
    requires IsPermutation(sigma, m) && i < m && j < m
    ensures IsPermutation(Swap(sigma, i, j), m)
  {
    var tau := Swap(sigma, i, j);
    SwapEntries(sigma, i, j);
    SwapBounded(sigma, m, i, j);
    forall c, d | 0 <= c < d < m
      ensures tau[c] != tau[d]
    {
      var c' := if c == i then j else if c == j then i else c;
      var d' := if d == i then j else if d == j then i else d;
      assert tau[c] == sigma[c'] && tau[d] == sigma[d'];
      assert c' != d';
    }
  }

  /** Exchanging two entries after reindexing is reindexing by the exchanged arrangement. */
  lemma SwapReindex<T>(xs: seq<T>, sigma: seq<nat>, i: nat, j: nat)
    requires Bounded(sigma, |xs|) && i < |sigma| && j < |sigma|
    ensures Bounded(Swap(sigma, i, j), |xs|)
    ensures Swap(Reindex(xs, sigma), i, j) == Reindex(xs, Swap(sigma, i, j))
  {
    SwapBounded(sigma, |xs|, i, j);
    SwapEntries(sigma, i, j);
    SwapEntries(Reindex(xs, sigma), i, j);
  }

  /** Line 93 in terms of the original block: exchanging two columns of a rearranged block is
      rearranging by the exchanged arrangement. */
  lemma SwapPermuteColumns(b: Block, sigma: seq<nat>, i: nat, j: nat)
    requires Square(b) && Bounded(sigma, |b|) && i < |sigma| && j < |sigma|
    ensures Bounded(Swap(sigma, i, j), |b|)
    ensures SwapColumns(PermuteColumns(b, sigma), i, j) == PermuteColumns(b, Swap(sigma, i, j))
  {
    SwapBounded(sigma, |b|, i, j);
    forall r | 0 <= r < |b|
      ensures SwapColumns(PermuteColumns(b, sigma), i, j)[r] == PermuteColumns(b, Swap(sigma, i, j))[r]
    {
      SwapReindex(b[r], sigma, i, j);
    }
  }

  /** Whatever one visit of the inner loop keeps, a whole round keeps. */
  lemma {:induction false} StepFromKeeps(
    obj: Block -> real, m: nat, best: Arrangement, i: nat, j: nat, keep: Arrangement -> bool)
    requires keep(best)
    requires forall a: Arrangement, x: nat, y: nat ::
               keep(a) && x < m && y < m ==> keep(Consider(obj, a, x, y))
    ensures keep(StepFrom(obj, m, best, i, j))
    decreases m - i, m - j
  {
    if i >= m {
    } else if j >= m {
      StepFromKeeps(obj, m, best, i + 1, 0, keep);
    } else if i == j {
      StepFromKeeps(obj, m, best, i, j + 1, keep);
    } else {
      StepFromKeeps(obj, m, Consider(obj, best, i, j), i, j + 1, keep);
    }
  }

  /** `a` is the block `b0` and the permutation entries `p0`, both rearranged by one common
      permutation. */
  ghost predicate Tracks(b0: Block, p0: seq<nat>, a: Arrangement)
    requires Square(b0) && |p0| == |b0|
  {
    exists sigma :: IsPermutation(sigma, |b0|) &&
                    a.block == PermuteColumns(b0, sigma) && a.perm == Reindex(p0, sigma)
  }

  ghost function TracksFrom(b0: Block, p0: seq<nat>): Arrangement -> bool
    requires Square(b0) && |p0| == |b0|
  {
    a => Tracks(b0, p0, a)
  }

  /** Lines 92-94 and 97-99: the columns of the block and the entries of the permutation move
      together, over a whole round. */
  lemma StepTracks(obj: Block -> real, b0: Block, p0: seq<nat>, best: Arrangement)
    requires Square(b0) && |p0| == |b0| && Tracks(b0, p0, best)
    ensures Tracks(b0, p0, StepFrom(obj, |b0|, best, 0, 0))
  {
    forall a: Arrangement, x: nat, y: nat | Tracks(b0, p0, a) && x < |b0| && y < |b0|
      ensures Tracks(b0, p0, Consider(obj, a, x, y))
    {
      var sigma :| IsPermutation(sigma, |b0|) &&
                   a.block == PermuteColumns(b0, sigma) && a.perm == Reindex(p0, sigma);
      var tau := ConsiderLockstep(obj, b0, p0, sigma, a, x, y);
    }
    StepFromKeeps(obj, |b0|, best, 0, 0, TracksFrom(b0, p0));
  }

  /** One visit keeps the block and the permutation rearranged by a common permutation. */
  lemma ConsiderLockstep(obj: Block -> real, b0: Block, p0: seq<nat>, sigma: seq<nat>, best: Arrangement, i: nat, j: nat)
    returns (tau: seq<nat>)
    requires Square(b0) && |p0| == |b0| && IsPermutation(sigma, |b0|) && i < |b0| && j < |b0|
    requires best.block == PermuteColumns(b0, sigma) && best.perm == Reindex(p0, sigma)
    ensures IsPermutation(tau, |b0|)
    ensures Consider(obj, best, i, j) == Arrangement(PermuteColumns(b0, tau), Reindex(p0, tau))
  {
    if Consider(obj, best, i, j) == best {
      tau := sigma;
    } else {
      tau := Swap(sigma, i, j);
      SwapPermutation(sigma, |b0|, i, j);
      SwapPermuteColumns(b0, sigma, i, j);
      SwapReindex(p0, sigma, i, j);
    }
  }

  /** Every sequence of length `len` with entries below m. */
  ghost function Tuples(m: nat, len: nat): (ts: set<seq<nat>>)
    ensures forall t :: t in ts <==> |t| == len && Bounded(t, m)
    decreases len
  {
    if len == 0 then {[]}
    else
      var shorter := Tuples(m, len - 1);
      var ts := set t, x | t in shorter && x in Range(0, m) :: t + [x];
      forall t | t in ts
        ensures |t| == len && Bounded(t, m)
      {
        var u, x :| u in shorter && x in Range(0, m) && t == u + [x];
        assert forall c :: 0 <= c < |u| ==> t[c] == u[c];
      }
      forall t | |t| == len && Bounded(t, m)
        ensures t in ts
      {
        assert t == t[..len - 1] + [t[len - 1]];
        assert t[..len - 1] in shorter;
      }
      ts
  }

  /** The rearrangements of the columns of `b0` that are strictly cheaper than `v`. */
  ghost function Below(b0: Block, v: real): set<seq<nat>>
    requires Square(b0)
  {
    set sigma | sigma in Tuples(|b0|, |b0|) && IsPermutation(sigma, |b0|) &&
                Objective(PermuteColumns(b0, sigma)) < v
  }

  /** The termination measure of the loop on line 104: how many rearrangements of the block's
      columns are strictly cheaper than the current one. */
  ghost function Rank(b0: Block, a: Arrangement): nat
  {
    if Square(b0) then |Below(b0, Objective(a.block))| else 0
  }

  /** What the loop carries is the starting block and the starting permutation entries, both
      rearranged by one common permutation, and no more costly than the start. */
  ghost predicate Reachable(b0: Block, p0: seq<nat>, a: Arrangement)
  {
    Square(b0) && |p0| == |b0| && Objective(a.block) <= Objective(b0) && Tracks(b0, p0, a)
  }

  ghost function RankOf(b0: Block): Arrangement -> nat
  {
    a => Rank(b0, a)
  }

  ghost function ReachableFrom(b0: Block, p0: seq<nat>): Arrangement -> bool
  {
    a => Reachable(b0, p0, a)
  }

  /** The loop starts from the block and permutation entries as given. */
  lemma InitialReachable(b0: Block, p0: seq<nat>)
    requires Square(b0) && |p0| == |b0|
    ensures Reachable(b0, p0, Arrangement(b0, p0))
  {
    var id := Identity(|b0|);
    assert PermuteColumns(b0, id) == b0 by {
      forall r | 0 <= r < |b0|
        ensures PermuteColumns(b0, id)[r] == b0[r]
      {
        assert Reindex(b0[r], id) == b0[r];
      }
    }
    assert Reindex(p0, id) == p0;
  }

  /** A strictly cheaper rearrangement has strictly fewer rearrangements below it. */
  lemma RankDrops(b0: Block, a: Arrangement, next: Arrangement, tau: seq<nat>)
    requires Square(b0) && IsPermutation(tau, |b0|) && next.block == PermuteColumns(b0, tau)
    requires Objective(next.block) < Objective(a.block)
    ensures Rank(b0, next) < Rank(b0, a)
  {
    var lower := Below(b0, Objective(next.block));
    var upper := Below(b0, Objective(a.block));
    assert tau in upper && tau !in lower;
    SubsetCard(lower, upper);
  }

  /** The round keeps the loop's invariant and, whenever it changes something, lowers the rank. */
  lemma StepReachable(b0: Block, p0: seq<nat>, y: Arrangement)
    requires Reachable(b0, p0, y)
    ensures Reachable(b0, p0, StepResult(y))
    ensures StepResult(y) != y ==> Rank(b0, StepResult(y)) < Rank(b0, y)
  {
    StepTracks(Objective, b0, p0, y);
    StepFixedIffOptimal(y);
    if StepResult(y) != y {
      var tau :| IsPermutation(tau, |b0|) && StepResult(y).block == PermuteColumns(b0, tau) &&
                 StepResult(y).perm == Reindex(p0, tau);
      RankDrops(b0, y, StepResult(y), tau);
    }
  }

  /** The same two facts in the form the convergence engine asks of its caller. */
  lemma StepConverges(b0: Block, p0: seq<nat>)
    ensures Preserves(StepResult, ReachableFrom(b0, p0))
    ensures Converges(StepResult, RankOf(b0), ReachableFrom(b0, p0))
  {
    forall y | Reachable(b0, p0, y)
      ensures Reachable(b0, p0, StepResult(y))
      ensures StepResult(y) != y ==> Rank(b0, StepResult(y)) < Rank(b0, y)
    {
      StepReachable(b0, p0, y);
    }
  }

  /** Lines 104-105 for one square block: rounds of `step` repeated until one changes nothing,
      starting from the block and the slice of the permutation (see AlignedProperties). */
  function Aligned(block: Block, perm: seq<nat>): (r: Arrangement)
    requires Square(block) && |perm| == |block|
    ensures |r.block| == |block| && |r.perm| == |perm|
  {
    InitialReachable(block, perm);
    AlignFrom(block, perm, Arrangement(block, perm))
  }

  /** The rounds from the arrangement `a` on, until one changes nothing (see AlignFromEnds). */
  function AlignFrom(b0: Block, p0: seq<nat>, a: Arrangement): (r: Arrangement)
    requires Reachable(b0, p0, a)
    ensures |r.block| == |b0| && |r.perm| == |p0|
    decreases Rank(b0, a)
  {
    var next := StepResult(a);
    if next == a then
      ReachableLengths(b0, p0, a);
      a
    else
      StepReachable(b0, p0, a);
      AlignFrom(b0, p0, next)
  }

  /** The rounds end at an arrangement that is still reachable and that a further round keeps. */
  lemma {:induction false} AlignFromEnds(b0: Block, p0: seq<nat>, a: Arrangement)
    requires Reachable(b0, p0, a)
    ensures Reachable(b0, p0, AlignFrom(b0, p0, a)) && StepResult(AlignFrom(b0, p0, a)) == AlignFrom(b0, p0, a)
    decreases Rank(b0, a)
  {
    if StepResult(a) != a {
      StepReachable(b0, p0, a);
      AlignFromEnds(b0, p0, StepResult(a));
    }
  }

  lemma ReachableLengths(b0: Block, p0: seq<nat>, a: Arrangement)
    requires Reachable(b0, p0, a)
    ensures |a.block| == |b0| && |a.perm| == |p0|
  {
  }

  /** The loop ends at a block no exchange of two columns improves, no more costly than the block it
      started from, and reached from the start by moving the columns of the block and the entries of
      the permutation together. */
  lemma AlignedProperties(block: Block, perm: seq<nat>)
    requires Square(block) && |perm| == |block|
    ensures LocallyOptimal(Objective, Aligned(block, perm).block)
    ensures Objective(Aligned(block, perm).block) <= Objective(block)
    ensures Reachable(block, perm, Aligned(block, perm))
  {
    InitialReachable(block, perm);
    AlignFromEnds(block, perm, Arrangement(block, perm));
    StepFixedIffOptimal(Aligned(block, perm));
  }

  /** Aligning a block no exchange improves changes nothing, and so aligning an aligned block again
      gives it back unchanged. */
  lemma AlignedIdempotent(block: Block, perm: seq<nat>)
    requires Square(block) && |perm| == |block|
    ensures LocallyOptimal(Objective, block) <==> Aligned(block, perm) == Arrangement(block, perm)
    ensures var r := Aligned(block, perm); Square(r.block) && Aligned(r.block, r.perm) == r
  {
    StepFixedIffOptimal(Arrangement(block, perm));
    AlignedProperties(block, perm);
    var r := Aligned(block, perm);
    StepFixedIffOptimal(r);
    InitialReachable(r.block, r.perm);
  }

  /** Line 104: the loop is the convergence engine of lines 114-119 applied to `step`; the round meets
      the engine's two demands, and the loop's result is the engine's. */
  lemma AlignedIsFirstFixpoint(block: Block, perm: seq<nat>)
    requires Square(block) && |perm| == |block|
    ensures Reachable(block, perm, Arrangement(block, perm))
    ensures Preserves(StepResult, ReachableFrom(block, perm))
    ensures Converges(StepResult, RankOf(block), ReachableFrom(block, perm))
    ensures Aligned(block, perm) ==
            FirstFixpoint(StepResult, Arrangement(block, perm), RankOf(block), ReachableFrom(block, perm))
  {
    InitialReachable(block, perm);
    StepConverges(block, perm);
    AlignFromIsFirstFixpoint(block, perm, Arrangement(block, perm));
  }

  lemma {:induction false} AlignFromIsFirstFixpoint(b0: Block, p0: seq<nat>, a: Arrangement)
    requires Reachable(b0, p0, a)
    requires Preserves(StepResult, ReachableFrom(b0, p0))
    requires Converges(StepResult, RankOf(b0), ReachableFrom(b0, p0))
    ensures AlignFrom(b0, p0, a) == FirstFixpoint(StepResult, a, RankOf(b0), ReachableFrom(b0, p0))
    decreases Rank(b0, a)
  {
    if StepResult(a) != a {
      StepReachable(b0, p0, a);
      AlignFromIsFirstFixpoint(b0, p0, StepResult(a));
    }
  }

  /** Line 104, the loop of `fixpoint` (lines 114-119) run with `step` as its function. */
  method AlignBlock(block: Block, perm: seq<nat>) returns (r: Arrangement)
    requires Square(block) && |perm| == |block|
    ensures r == Aligned(block, perm)
  {
    InitialReachable(block, perm);
    var current := Arrangement(block, perm);
    while true
      invariant Reachable(block, perm, current)
      invariant AlignFrom(block, perm, current) == Aligned(block, perm)
      decreases Rank(block, current)
    {
      var next := Step(Objective, current);
      assert next == StepResult(current);
      if next == current {
        return current;
      }
      StepReachable(block, perm, current);
      current := next;
    }
  }

  /** Line 80 for a two-by-two block: only the off-diagonal entries count, with weight one. */
  lemma ObjectiveTwoByTwo(w: real, x: real, y: real, z: real)
    ensures Objective([[w, x], [y, z]]) == x + y
  {
    var b := [[w, x], [y, z]];
    assert b[..1] == [[w, x]] && [[w, x]][..0] == [];
    assert [w, x][..1] == [w] && [w][..0] == [];
    assert [y, z][..1] == [y] && [y][..0] == [];
    assert Weight(0, 0) == 0.0 && Weight(0, 1) == 1.0 && Weight(1, 0) == 1.0 && Weight(1, 1) == 0.0;
    assert RowObjective([w], 0) == 0.0;
    assert RowObjective([w, x], 0) == x;
    assert RowObjective([y], 1) == y;
    assert RowObjective([y, z], 1) == y;
  }

  /** Exchanging the columns of a two-by-two block. */
  lemma SwapTwoByTwo(w: real, x: real, y: real, z: real)
    ensures SwapColumns([[w, x], [y, z]], 0, 1) == [[x, w], [z, y]]
    ensures SwapColumns([[w, x], [y, z]], 1, 0) == [[x, w], [z, y]]
  {
    var b := [[w, x], [y, z]];
    assert Swap(b[0], 0, 1) == [x, w] && Swap(b[0], 1, 0) == [x, w];
    assert Swap(b[1], 0, 1) == [z, y] && Swap(b[1], 1, 0) == [z, y];
  }

  /** One round on a two-by-two arrangement tries the exchange (0, 1) and then (1, 0). */
  lemma StepTwoByTwo(a: Arrangement)
    requires |a.block| == 2
    ensures StepResult(a) == Consider(Objective, Consider(Objective, a, 0, 1), 1, 0)
  {
    var b := Consider(Objective, a, 0, 1);
    var c := Consider(Objective, b, 1, 0);
    assert StepFrom(Objective, 2, c, 1, 1) == c;
    assert StepFrom(Objective, 2, b, 1, 0) == c;
    assert StepFrom(Objective, 2, b, 0, 2) == c;
    assert StepFrom(Objective, 2, a, 0, 1) == c;
  }

  /** The first round on the exchanged states swaps them back into place. */
  lemma ExchangeFirstRound()
    ensures StepResult(Arrangement([[0.0, 0.9], [0.9, 0.0]], [0, 1])) == Arrangement([[0.9, 0.0], [0.0, 0.9]], [1, 0])
  {
    var start := Arrangement([[0.0, 0.9], [0.9, 0.0]], [0, 1]);
    var swapped := Arrangement([[0.9, 0.0], [0.0, 0.9]], [1, 0]);
    ObjectiveTwoByTwo(0.0, 0.9, 0.9, 0.0);
    ObjectiveTwoByTwo(0.9, 0.0, 0.0, 0.9);
    SwapTwoByTwo(0.0, 0.9, 0.9, 0.0);
    SwapTwoByTwo(0.9, 0.0, 0.0, 0.9);
    assert Swap(start.perm, 0, 1) == swapped.perm;
    assert Swap(swapped.perm, 1, 0) == start.perm;
    assert Consider(Objective, start, 0, 1) == swapped;
    assert Consider(Objective, swapped, 1, 0) == swapped;
    StepTwoByTwo(start);
  }

  /** The second round keeps the aligned states. */
  lemma ExchangeSecondRound()
    ensures StepResult(Arrangement([[0.9, 0.0], [0.0, 0.9]], [1, 0])) == Arrangement([[0.9, 0.0], [0.0, 0.9]], [1, 0])
  {
    var swapped := Arrangement([[0.9, 0.0], [0.0, 0.9]], [1, 0]);
    ObjectiveTwoByTwo(0.0, 0.9, 0.9, 0.0);
    ObjectiveTwoByTwo(0.9, 0.0, 0.0, 0.9);
    SwapTwoByTwo(0.9, 0.0, 0.0, 0.9);
    assert Consider(Objective, swapped, 0, 1) == swapped;
    assert Consider(Objective, swapped, 1, 0) == swapped;
    StepTwoByTwo(swapped);
  }

  /** When the first round reaches an arrangement the second round keeps, that arrangement is the
      result of the loop. */
  lemma AlignedAfterOneChange(block: Block, perm: seq<nat>, next: Arrangement)
    requires Square(block) && |perm| == |block|
    requires StepResult(Arrangement(block, perm)) == next && StepResult(next) == next
    ensures Aligned(block, perm) == next
  {
    var start := Arrangement(block, perm);
    InitialReachable(block, perm);
    if next != start {
      StepReachable(block, perm, start);
      assert AlignFrom(block, perm, start) == AlignFrom(block, perm, next);
    }
  }

  /** Two states exchanged between the files: one round swaps the two columns and the entries
      of the permutation, and the next round keeps them. */
  lemma AlignedExchange()
    ensures Aligned([[0.0, 0.9], [0.9, 0.0]], [0, 1]) == Arrangement([[0.9, 0.0], [0.0, 0.9]], [1, 0])
  {
    ExchangeFirstRound();
    ExchangeSecondRound();
    AlignedAfterOneChange([[0.0, 0.9], [0.9, 0.0]], [0, 1], Arrangement([[0.9, 0.0], [0.0, 0.9]], [1, 0]));
  }
}
