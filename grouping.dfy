/** The set-union partitioner (`group_into_non_overlapping_sets`): merge intersecting sets until none
    intersect. */
module Grouping {
  import opened Sets
  import opened Fixpoint

  type Family = set<set<nat>>

  /** The members of `family` that share an element with `s`. */
  function Touching(family: Family, s: set<nat>): Family
  {
    set x | x in family && x * s != {}
  }

  /** The union of every member of `family` that intersects `s` (one element of a round, line 24). */
  function Merge(family: Family, s: set<nat>): set<nat>
  {
    Union(Touching(family, s))
  }

  lemma MergeContains(family: Family, s: set<nat>, x: set<nat>)
    requires x in family && x * s != {}
    ensures x <= Merge(family, s)
  {
    UnionBounds(Touching(family, s), x);
  }

  lemma MergeSource(family: Family, s: set<nat>, e: nat) returns (x: set<nat>)
    requires e in Merge(family, s)
    ensures x in family && x * s != {} && e in x
  {
    x := UnionSource(Touching(family, s), e);
  }

  /** One round: every member is replaced by the union of the members that intersect it. */
  function Round(family: Family): Family
  {
    set s | s in family :: Merge(family, s)
  }

  /** Members are pairwise disjoint. */
  ghost predicate PairwiseDisjoint(family: Family)
  {
    forall s, t :: s in family && t in family && s != t ==> s * t == {}
  }

  /** The k-th set of a path intersects the next one. */
  ghost predicate Adjacent(path: seq<set<nat>>, k: nat)
  {
    k + 1 < |path| && path[k] * path[k + 1] != {}
  }

  /** A path of input sets in which each set intersects the next. */
  ghost predicate Chain(sets: Family, path: seq<set<nat>>)
  {
    && |path| > 0
    && (forall k :: 0 <= k < |path| ==> path[k] in sets)
    && (forall k :: 0 <= k < |path| - 1 ==> Adjacent(path, k))
  }

  /** `a` and `b` are in the same connected component of the input sets: some chain of intersecting
      input sets leads from a set holding `a` to a set holding `b`. */
  ghost predicate Linked(sets: Family, a: nat, b: nat)
  {
    exists path :: Chain(sets, path) && a in path[0] && b in path[|path| - 1]
  }

  /** Every input set lies inside some member. */
  ghost predicate Covers(sets: Family, family: Family)
  {
    forall s :: s in sets ==> exists g :: g in family && s <= g
  }

  /** Some input set holds `e` and lies inside `g`. */
  ghost predicate FromSets(sets: Family, g: set<nat>, e: nat)
  {
    exists s :: s in sets && e in s && s <= g
  }

  /** Every element of a member comes with an input set holding it that lies inside that member. */
  ghost predicate BuiltFrom(sets: Family, family: Family)
  {
    forall g, e {:trigger FromSets(sets, g, e)} :: g in family && e in g ==> FromSets(sets, g, e)
  }

  /** Any two elements of a member are linked through the input sets. */
  ghost predicate Connected(sets: Family, family: Family)
  {
    forall g, a, b {:trigger Linked(sets, a, b), g in family} :: g in family && a in g && b in g ==> Linked(sets, a, b)
  }

  /** What every round keeps true of the current family, relative to the input family `sets`. */
  ghost predicate GroupInv(sets: Family, family: Family)
  {
    && Union(family) == Union(sets)
    && Covers(sets, family)
    && BuiltFrom(sets, family)
    && ({} in family <==> {} in sets)
    && |family| <= |sets|
    && Connected(sets, family)
  }

  /** The weight of one member: how far it is from holding every element of a universe of size
      `cap - 1`. */
  function Weight(cap: nat, s: set<nat>): nat
  {
    if |s| < cap then cap - |s| else 0
  }

  /** The convergence measure of the partitioner: it drops in every round that changes the family. */
  ghost function GroupRank(sets: Family, family: Family): nat
  {
    Sum(family, s => Weight(|Union(sets)| + 1, s))
  }

  lemma LinkedWithin(sets: Family, s: set<nat>, a: nat, b: nat)
    requires s in sets && a in s && b in s
    ensures Linked(sets, a, b)
  {
    assert Chain(sets, [s]);
  }

  lemma LinkedTransitive(sets: Family, a: nat, b: nat, c: nat)
    requires Linked(sets, a, b) && Linked(sets, b, c)
    ensures Linked(sets, a, c)
  {
    var p :| Chain(sets, p) && a in p[0] && b in p[|p| - 1];
    var q :| Chain(sets, q) && b in q[0] && c in q[|q| - 1];
    var pq := p + q;
    assert p[|p| - 1] * q[0] != {} by {
      assert b in p[|p| - 1] * q[0];
    }
    forall k | 0 <= k < |pq| - 1
      ensures Adjacent(pq, k)
    {
      assert k < |p| - 1 ==> Adjacent(p, k);
      assert k >= |p| ==> Adjacent(q, k - |p|);
      if k < |p| - 1 {
        assert pq[k] == p[k] && pq[k + 1] == p[k + 1];
      } else if k >= |p| {
        assert pq[k] == q[k - |p|] && pq[k + 1] == q[k + 1 - |p|];
      }
    }
    assert Chain(sets, pq);
  }

  lemma InitialInv(sets: Family)
    ensures GroupInv(sets, sets)
  {
    forall g, a, b | g in sets && a in g && b in g
      ensures Linked(sets, a, b)
    {
      LinkedWithin(sets, g, a, b);
    }
  }

  lemma MergeGrows(family: Family, s: set<nat>)
    requires s in family
    ensures s <= Merge(family, s)
    ensures s == {} <==> Merge(family, s) == {}
  {
    if s != {} {
      assert s * s != {};
    } else {
      assert Touching(family, s) == {};
    }
  }

  lemma RoundKeepsUnion(family: Family)
    ensures Union(Round(family)) == Union(family)
  {
    var next := Round(family);
    forall e | e in Union(family)
      ensures e in Union(next)
    {
      var s :| s in family && e in s;
      MergeGrows(family, s);
    }
    forall e | e in Union(next)
      ensures e in Union(family)
    {
      var m :| m in next && e in m;
      var s :| s in family && m == Merge(family, s);
      var x :| x in family && x * s != {} && e in x;
    }
  }

  lemma RoundKeepsCover(sets: Family, family: Family)
    requires Covers(sets, family)
    ensures Covers(sets, Round(family))
  {
    forall s | s in sets
      ensures exists g :: g in Round(family) && s <= g
    {
      var g :| g in family && s <= g;
      MergeGrows(family, g);
      assert Merge(family, g) in Round(family);
    }
  }

  lemma RoundKeepsProvenance(sets: Family, family: Family)
    requires BuiltFrom(sets, family)
    ensures BuiltFrom(sets, Round(family))
  {
    forall g, e | g in Round(family) && e in g
      ensures FromSets(sets, g, e)
    {
      var u :| u in family && g == Merge(family, u);
      var x :| x in family && x * u != {} && e in x;
      assert FromSets(sets, x, e);
      var s :| s in sets && e in s && s <= x;
    }
  }

  lemma RoundKeepsEmpty(family: Family)
    ensures {} in Round(family) <==> {} in family
  {
    if {} in family {
      MergeGrows(family, {});
      assert Merge(family, {}) in Round(family);
    }
    if {} in Round(family) {
      var u :| u in family && Merge(family, u) == {};
      MergeGrows(family, u);
    }
  }

  lemma RoundKeepsLinks(sets: Family, family: Family)
    requires Connected(sets, family)
    ensures Connected(sets, Round(family))
  {
    forall g, a, b | g in Round(family) && a in g && b in g
      ensures Linked(sets, a, b)
    {
      var u :| u in family && g == Merge(family, u);
      var x :| x in family && x * u != {} && a in x;
      var y :| y in family && y * u != {} && b in y;
      var c :| c in x * u;
      var d :| d in y * u;
      LinkedTransitive(sets, a, c, d);
      LinkedTransitive(sets, a, d, b);
    }
  }

  lemma RoundKeepsInv(sets: Family, family: Family)
    requires GroupInv(sets, family)
    ensures GroupInv(sets, Round(family))
  {
    RoundKeepsUnion(family);
    RoundKeepsCover(sets, family);
    RoundKeepsProvenance(sets, family);
    RoundKeepsEmpty(family);
    RoundKeepsLinks(sets, family);
    var g := s => Merge(family, s);
    var image := set s | s in family :: g(s);
    CardImage(family, g);
    assert |image| <= |family|;
    assert Round(family) == image;
  }

  /** Merging never lowers the size of a member, and a member that grows loses weight. */
  lemma MergeWeight(family: Family, cap: nat, s: set<nat>)
    requires s in family && cap == |Union(family)| + 1
    ensures Weight(cap, Merge(family, s)) <= Weight(cap, s)
    ensures Merge(family, s) != s ==> Weight(cap, Merge(family, s)) < Weight(cap, s)
  {
    var m := Merge(family, s);
    MergeGrows(family, s);
    SubsetCard(s, m);
    forall e | e in m
      ensures e in Union(family)
    {
      var x := MergeSource(family, s, e);
      InUnion(family, x, e);
    }
    SubsetCard(m, Union(family));
  }

  lemma AllFixedRound(family: Family)
    requires forall t :: t in family ==> Merge(family, t) == t
    ensures Round(family) == family
  {
  }

  /** Some member changes in a round that changes the family. */
  lemma SomeMemberGrows(family: Family) returns (s: set<nat>)
    requires Round(family) != family
    ensures s in family && Merge(family, s) != s
  {
    if forall t :: t in family ==> Merge(family, t) == t {
      AllFixedRound(family);
      assert false;
    }
    s :| s in family && Merge(family, s) != s;
  }

  /** A round in which some member grows lowers the rank. */
  lemma GrowingMemberLowersRank(sets: Family, family: Family, s: set<nat>)
    requires GroupInv(sets, family) && s in family && Merge(family, s) != s
    ensures GroupRank(sets, Round(family)) < GroupRank(sets, family)
  {
    var cap := |Union(sets)| + 1;
    var w := s => Weight(cap, s);
    var g := s => Merge(family, s);
    var wg := s => Weight(cap, Merge(family, s));
    assert Round(family) == set s | s in family :: g(s);
    SumImage(family, g, w, wg);
    assert Sum(Round(family), w) <= Sum(family, wg);
    forall s | s in family
      ensures wg(s) <= w(s)
    {
      MergeWeight(family, cap, s);
    }
    MergeWeight(family, cap, s);
    SumMonotone(family, wg, w);
  }

  /** A round that changes the family lowers its rank. */
  lemma RoundLowersRank(sets: Family, family: Family)
    requires GroupInv(sets, family) && Round(family) != family
    ensures GroupRank(sets, Round(family)) < GroupRank(sets, family)
  {
    var s := SomeMemberGrows(family);
    GrowingMemberLowersRank(sets, family, s);
  }

  lemma RoundPreserves(sets: Family)
    ensures Preserves(Round, f => GroupInv(sets, f))
  {
    forall family | GroupInv(sets, family)
      ensures GroupInv(sets, Round(family))
    {
      RoundKeepsInv(sets, family);
    }
  }

  lemma RoundConverges(sets: Family)
    ensures Converges(Round, f => GroupRank(sets, f), f => GroupInv(sets, f))
  {
    forall family | GroupInv(sets, family) && Round(family) != family
      ensures GroupRank(sets, Round(family)) < GroupRank(sets, family)
    {
      RoundLowersRank(sets, family);
    }
  }

  /** Every member is its own merge: no member intersects another. */
  ghost predicate Settled(family: Family)
  {
    forall g {:trigger Merge(family, g)} :: g in family ==> Merge(family, g) == g
  }

  /** A family that a round leaves unchanged is settled: a growing member would lower the rank. */
  lemma FixedIsSettled(sets: Family, family: Family)
    requires GroupInv(sets, family) && Round(family) == family
    ensures Settled(family)
  {
    forall g | g in family
      ensures Merge(family, g) == g
    {
      if Merge(family, g) != g {
        GrowingMemberLowersRank(sets, family, g);
        assert false;
      }
    }
  }

  /** Lines 18-26: iterate the round from the input family until it no longer changes anything
      (see GroupingFacts). */
  function GroupIntoNonOverlappingSets(sets: Family): (groups: Family)
  {
    InitialInv(sets);
    GroupFrom(sets, sets)
  }

  /** The rounds from `family` on, until one changes nothing. */
  function GroupFrom(sets: Family, family: Family): (groups: Family)
    requires GroupInv(sets, family)
    decreases GroupRank(sets, family)
  {
    if Round(family) == family then family
    else
      RoundKeepsInv(sets, family);
      RoundLowersRank(sets, family);
      GroupFrom(sets, Round(family))
  }

  /** The rounds keep the invariant and end at a settled family. */
  lemma {:induction false} GroupFromFacts(sets: Family, family: Family)
    requires GroupInv(sets, family)
    ensures GroupInv(sets, GroupFrom(sets, family)) && Settled(GroupFrom(sets, family))
    decreases GroupRank(sets, family)
  {
    if Round(family) == family {
      FixedIsSettled(sets, family);
    } else {
      RoundKeepsInv(sets, family);
      RoundLowersRank(sets, family);
      GroupFromFacts(sets, Round(family));
    }
  }

  /** Lines 18-26: the groups cover every input set, are built from input sets, are linked inside
      and are pairwise settled: no group meets another. */
  lemma GroupingFacts(sets: Family)
    ensures GroupInv(sets, GroupIntoNonOverlappingSets(sets))
    ensures Settled(GroupIntoNonOverlappingSets(sets))
  {
    InitialInv(sets);
    GroupFromFacts(sets, sets);
  }

  /** Lines 25-26: the groups are what the convergence engine returns for the round, started from the
      input family. */
  lemma GroupsAreFirstFixpoint(sets: Family)
    ensures GroupInv(sets, sets)
    ensures Preserves(Round, f => GroupInv(sets, f))
    ensures Converges(Round, f => GroupRank(sets, f), f => GroupInv(sets, f))
    ensures GroupIntoNonOverlappingSets(sets) ==
            FirstFixpoint(Round, sets, f => GroupRank(sets, f), f => GroupInv(sets, f))
  {
    InitialInv(sets);
    RoundPreserves(sets);
    RoundConverges(sets);
    GroupFromIsFirstFixpoint(sets, sets);
  }

  lemma {:induction false} GroupFromIsFirstFixpoint(sets: Family, family: Family)
    requires GroupInv(sets, family)
    requires Preserves(Round, f => GroupInv(sets, f))
    requires Converges(Round, f => GroupRank(sets, f), f => GroupInv(sets, f))
    ensures GroupFrom(sets, family) ==
            FirstFixpoint(Round, family, f => GroupRank(sets, f), f => GroupInv(sets, f))
    decreases GroupRank(sets, family)
  {
    if Round(family) != family {
      RoundKeepsInv(sets, family);
      RoundLowersRank(sets, family);
      GroupFromIsFirstFixpoint(sets, Round(family));
    }
  }

  /** The groups are a fixed point of the round: one more round changes nothing. */
  lemma GroupsAreFixed(sets: Family)
    ensures Round(GroupIntoNonOverlappingSets(sets)) == GroupIntoNonOverlappingSets(sets)
  {
    GroupsAreFirstFixpoint(sets);
  }

  /** A settled family is pairwise disjoint. */
  lemma SettledIsDisjoint(family: Family)
    requires Settled(family)
    ensures PairwiseDisjoint(family)
  {
    forall s, t | s in family && t in family && s * t != {}
      ensures s == t
    {
      assert Merge(family, s) == s && Merge(family, t) == t;
      assert t * s != {};
      MergeContains(family, s, t);
      MergeContains(family, t, s);
    }
  }

  /** Lines 18-26, the partition: the groups are pairwise disjoint, cover exactly the elements of the
      input sets, and every non-empty input set lies inside exactly one group. An empty group appears
      exactly when an empty input set does, and there are no more groups than input sets. */
  lemma GroupsPartition(sets: Family)
    ensures PairwiseDisjoint(GroupIntoNonOverlappingSets(sets))
    ensures Union(GroupIntoNonOverlappingSets(sets)) == Union(sets)
    ensures forall s :: s in sets ==> exists g :: g in GroupIntoNonOverlappingSets(sets) && s <= g
    ensures forall s, g, h ::
              (s in sets && s != {} && s <= g && s <= h &&
               g in GroupIntoNonOverlappingSets(sets) && h in GroupIntoNonOverlappingSets(sets)) ==> g == h
    ensures {} in GroupIntoNonOverlappingSets(sets) <==> {} in sets
    ensures |GroupIntoNonOverlappingSets(sets)| <= |sets|
  {
    var groups := GroupIntoNonOverlappingSets(sets);
    GroupingFacts(sets);
    SettledIsDisjoint(groups);
    DisjointHoldsOnce(sets, groups);
  }

  /** In a pairwise disjoint family a non-empty set lies inside at most one member. */
  lemma DisjointHoldsOnce(sets: Family, groups: Family)
    requires PairwiseDisjoint(groups)
    ensures forall s, g, h ::
              (s in sets && s != {} && s <= g && s <= h && g in groups && h in groups) ==> g == h
  {
    forall s, g, h | s in sets && s != {} && g in groups && h in groups && s <= g && s <= h
      ensures g == h
    {
      var e :| e in s;
      assert e in g * h;
    }
  }

  /** In a disjoint family covering the input sets, an input set lies inside any member that it meets. */
  lemma GroupOfElement(sets: Family, groups: Family, s: set<nat>, e: nat, g: set<nat>)
    requires Covers(sets, groups) && PairwiseDisjoint(groups)
    requires s in sets && e in s && g in groups && e in g
    ensures s <= g
  {
    var h :| h in groups && s <= h;
    assert e in g * h;
  }

  /** In a disjoint family covering the input sets, a chain that starts inside member `g` stays in `g`. */
  lemma {:induction false} ChainStaysInside(sets: Family, groups: Family, path: seq<set<nat>>, g: set<nat>, k: nat)
    requires Covers(sets, groups) && PairwiseDisjoint(groups)
    requires Chain(sets, path) && k < |path|
    requires g in groups && path[0] * g != {}
    ensures path[k] <= g
    decreases k
  {
    if k == 0 {
      var e :| e in path[0] * g;
      GroupOfElement(sets, groups, path[0], e, g);
    } else {
      ChainStaysInside(sets, groups, path, g, k - 1);
      assert Adjacent(path, k - 1);
      var e :| e in path[k - 1] * path[k];
      GroupOfElement(sets, groups, path[k], e, g);
    }
  }

  /** In a disjoint family covering the input sets, whatever is linked to an element of a member
      lies in that member. */
  lemma LinkedStaysInside(sets: Family, groups: Family)
    requires Covers(sets, groups) && PairwiseDisjoint(groups)
    ensures forall g, a, b :: g in groups && a in g && Linked(sets, a, b) ==> b in g
  {
    forall g, a, b | g in groups && a in g && Linked(sets, a, b)
      ensures b in g
    {
      var path :| Chain(sets, path) && a in path[0] && b in path[|path| - 1];
      assert a in path[0] * g;
      ChainStaysInside(sets, groups, path, g, |path| - 1);
    }
  }

  /** Lines 18-26, the components: the groups are exactly the connected components of the input sets
      under "shares an element". Any two elements of a group are linked, and anything linked to an
      element of a group is in that group. */
  lemma GroupsAreComponents(sets: Family)
    ensures forall g, a, b :: g in GroupIntoNonOverlappingSets(sets) && a in g && b in g ==> Linked(sets, a, b)
    ensures forall g, a, b :: g in GroupIntoNonOverlappingSets(sets) && a in g && Linked(sets, a, b) ==> b in g
  {
    var groups := GroupIntoNonOverlappingSets(sets);
    GroupingFacts(sets);
    SettledIsDisjoint(groups);
    LinkedStaysInside(sets, groups);
  }

  /** In a pairwise disjoint family every member is its own merge. */
  lemma DisjointMergeIsSelf(family: Family, s: set<nat>)
    requires PairwiseDisjoint(family) && s in family
    ensures Merge(family, s) == s
  {
    if s == {} {
      assert Touching(family, s) == {};
    } else {
      assert s * s != {} by {
        var e :| e in s;
      }
      assert Touching(family, s) == {s};
    }
  }

  /** A pairwise disjoint family is left unchanged by a round. */
  lemma DisjointIsFixed(family: Family)
    requires PairwiseDisjoint(family)
    ensures Round(family) == family
  {
    forall t | t in family
      ensures Merge(family, t) == t
    {
      DisjointMergeIsSelf(family, t);
    }
    AllFixedRound(family);
  }

  /** Lines 18-26: input sets that are already pairwise disjoint come back unchanged. */
  lemma DisjointUnchanged(sets: Family)
    requires PairwiseDisjoint(sets)
    ensures GroupIntoNonOverlappingSets(sets) == sets
  {
    InitialInv(sets);
    RoundPreserves(sets);
    RoundConverges(sets);
    DisjointIsFixed(sets);
  }

  /** Grouping is idempotent: grouping the groups again changes nothing. */
  lemma GroupingIdempotent(sets: Family)
    ensures GroupIntoNonOverlappingSets(GroupIntoNonOverlappingSets(sets)) == GroupIntoNonOverlappingSets(sets)
  {
    var groups := GroupIntoNonOverlappingSets(sets);
    GroupingFacts(sets);
    SettledIsDisjoint(groups);
    DisjointUnchanged(groups);
  }

  /** A chain of contiguous sets from a set holding `a` to a set holding `b` passes through every
      index between `a` and `b`. */
  lemma {:induction false} ChainBetween(sets: Family, path: seq<set<nat>>, a: nat, b: nat, y: nat) returns (k: nat)
    requires Chain(sets, path) && a in path[0] && b in path[|path| - 1]
    requires forall s :: s in sets ==> Contiguous(s)
    requires a <= y <= b || b <= y <= a
    ensures k < |path| && y in path[k]
    decreases |path|
  {
    if |path| == 1 {
      InBetween(path[0], a, b, y);
      k := 0;
    } else {
      assert Adjacent(path, 0);
      var e :| e in path[0] * path[1];
      if a <= y <= e || e <= y <= a {
        InBetween(path[0], a, e, y);
        k := 0;
      } else {
        var rest := path[1..];
        forall i | 0 <= i < |rest| - 1
          ensures Adjacent(rest, i)
        {
          assert Adjacent(path, i + 1);
        }
        var k' := ChainBetween(sets, rest, e, b, y);
        k := k' + 1;
      }
    }
  }

  /** A chain cut short after its k-th set is still a chain. */
  lemma ChainPrefix(sets: Family, path: seq<set<nat>>, k: nat)
    requires Chain(sets, path) && k < |path|
    ensures Chain(sets, path[..k + 1])
  {
    var prefix := path[..k + 1];
    forall i | 0 <= i < |prefix| - 1
      ensures Adjacent(prefix, i)
    {
      assert Adjacent(path, i);
    }
  }

  /** With contiguous input sets, an index between two linked indices is linked to them. */
  lemma LinkedBetween(sets: Family, x: nat, z: nat, y: nat)
    requires forall s :: s in sets ==> Contiguous(s)
    requires Linked(sets, x, z) && x <= y <= z
    ensures Linked(sets, x, y)
  {
    var path :| Chain(sets, path) && x in path[0] && z in path[|path| - 1];
    var k := ChainBetween(sets, path, x, z, y);
    ChainPrefix(sets, path, k);
    var prefix := path[..k + 1];
    assert Chain(sets, prefix) && x in prefix[0] && y in prefix[|prefix| - 1];
  }

  /** When every input set is contiguous, so is every group: a group is a connected component, and a
      chain of intersecting contiguous sets leaves no gap. */
  lemma ContiguousGroups(sets: Family)
    requires forall s :: s in sets ==> Contiguous(s)
    ensures forall g :: g in GroupIntoNonOverlappingSets(sets) ==> Contiguous(g)
  {
    var groups := GroupIntoNonOverlappingSets(sets);
    GroupsAreComponents(sets);
    forall g, x, z | g in groups && x in g && z in g && x < z
      ensures Range(x, z) <= g
    {
      forall y | y in Range(x, z)
        ensures y in g
      {
        LinkedBetween(sets, x, z, y);
      }
    }
  }
}
