/** Finite-set helpers shared by the partitioner, the block merger and the assembler. */
module Sets {

  /** The indices lo, lo+1, ..., hi-1 (Python's `range(lo, hi)` as a set). */
  function Range(lo: nat, hi: nat): (r: set<nat>)
    ensures forall k :: k in r <==> lo <= k < hi
    decreases hi - lo
  {
    if hi <= lo then {} else {lo} + Range(lo + 1, hi)
  }

  lemma {:induction false} RangeCard(lo: nat, hi: nat)
    ensures |Range(lo, hi)| == if lo <= hi then hi - lo else 0
    decreases hi - lo
  {
    if lo < hi {
      RangeCard(lo + 1, hi);
      assert Range(lo, hi) == {lo} + Range(lo + 1, hi);
    }
  }

  /** The union of a family of index sets. */
  function Union(family: set<set<nat>>): set<nat>
  {
    set s, x | s in family && x in s :: x
  }

  lemma InUnion(family: set<set<nat>>, s: set<nat>, x: nat)
    requires s in family && x in s
    ensures x in Union(family)
  {
  }

  lemma UnionSource(family: set<set<nat>>, x: nat) returns (s: set<nat>)
    requires x in Union(family)
    ensures s in family && x in s
  {
    s :| s in family && x in s;
  }

  /** Every member lies inside the union. */
  lemma UnionBounds(family: set<set<nat>>, s: set<nat>)
    requires s in family
    ensures s <= Union(family)
  {
  }

  /** `s` is a subset of `t` with no more elements, hence equal; a proper subset is strictly smaller. */
  lemma SubsetCard<T>(s: set<T>, t: set<T>)
    requires s <= t
    ensures |s| <= |t|
    ensures s != t ==> |s| < |t|
  {
    assert t == s + (t - s);
    if s != t {
      var x :| x in t - s;
    }
  }

  /** Some element of a non-empty set is at most every element. */
  lemma MinExists(s: set<nat>)
    requires s != {}
    ensures exists m :: m in s && forall y :: y in s ==> m <= y
  {
    var m := LeastOf(s);
  }

  /** The least element of a non-empty set, found by taking one element out at a time. */
  lemma {:induction false} LeastOf(s: set<nat>) returns (m: nat)
    requires s != {}
    ensures m in s && forall y :: y in s ==> m <= y
    decreases |s|
  {
    var x :| x in s;
    if s == {x} {
      m := x;
    } else {
      var rest := LeastOf(s - {x});
      m := if x < rest then x else rest;
      forall y | y in s
        ensures m <= y
      {
        if y != x {
          assert y in s - {x};
        }
      }
    }
  }

  /** Some element of a non-empty set is at least every element. */
  lemma MaxExists(s: set<nat>)
    requires s != {}
    ensures exists m :: m in s && forall y :: y in s ==> y <= m
  {
    var m := GreatestOf(s);
  }

  /** The greatest element of a non-empty set, found by taking one element out at a time. */
  lemma {:induction false} GreatestOf(s: set<nat>) returns (m: nat)
    requires s != {}
    ensures m in s && forall y :: y in s ==> y <= m
    decreases |s|
  {
    var x :| x in s;
    if s == {x} {
      m := x;
    } else {
      var rest := GreatestOf(s - {x});
      m := if rest < x then x else rest;
      forall y | y in s
        ensures y <= m
      {
        if y != x {
          assert y in s - {x};
        }
      }
    }
  }

  /** Python's `min` of a non-empty set of indices. */
  function SetMin(s: set<nat>): (m: nat)
    requires s != {}
    ensures m in s && forall y :: y in s ==> m <= y
  {
    MinExists(s);
    var m :| m in s && forall y :: y in s ==> m <= y;
    m
  }

  /** Python's `max` of a non-empty set of indices. */
  function SetMax(s: set<nat>): (m: nat)
    requires s != {}
    ensures m in s && forall y :: y in s ==> y <= m
  {
    MaxExists(s);
    var m :| m in s && forall y :: y in s ==> y <= m;
    m
  }

  /** Strictly ascending order. */
  predicate StrictlyAscending(xs: seq<nat>)
  {
    forall i, j :: 0 <= i < j < |xs| ==> xs[i] < xs[j]
  }

  /** Python's `sorted` applied to a set of indices: its elements in ascending order. */
  function SortedList(s: set<nat>): (xs: seq<nat>)
    ensures StrictlyAscending(xs)
    ensures |xs| == |s|
    ensures forall x :: x in xs <==> x in s
    decreases |s|
  {
    if s == {} then []
    else
      var m := SetMin(s);
      var rest := SortedList(s - {m});
      assert forall k :: 0 <= k < |rest| ==> rest[k] in s - {m};
      [m] + rest
  }

  /** The sum of `w` over a finite family of index sets. */
  ghost function Sum(family: set<set<nat>>, w: set<nat> -> nat): nat
  {
    if family == {} then 0
    else
      var s :| s in family;
      w(s) + Sum(family - {s}, w)
  }

  /** The sum does not depend on which element is taken out first. */
  lemma {:induction false} SumRemove(family: set<set<nat>>, w: set<nat> -> nat, s: set<nat>)
    requires s in family
    ensures Sum(family, w) == w(s) + Sum(family - {s}, w)
    decreases |family|
  {
    var t :| t in family && Sum(family, w) == w(t) + Sum(family - {t}, w);
    if t != s {
      SumRemove(family - {t}, w, s);
      SumRemove(family - {s}, w, t);
      assert family - {t} - {s} == family - {s} - {t};
    }
  }

  /** A pointwise smaller weight has a smaller sum, strictly so if it is strictly smaller somewhere. */
  lemma {:induction false} SumMonotone(family: set<set<nat>>, v: set<nat> -> nat, w: set<nat> -> nat)
    requires forall s :: s in family ==> v(s) <= w(s)
    ensures Sum(family, v) <= Sum(family, w)
    ensures (exists s :: s in family && v(s) < w(s)) ==> Sum(family, v) < Sum(family, w)
    decreases |family|
  {
    if family != {} {
      var s :| s in family && ((exists t :: t in family && v(t) < w(t)) ==> v(s) < w(s));
      SumRemove(family, v, s);
      SumRemove(family, w, s);
      SumMonotone(family - {s}, v, w);
    }
  }

  /** Taking the image of a family under `g` can only merge elements, so the sum cannot grow
      (`wg` is `w` after `g`). */
  lemma {:induction false} SumImage(
    family: set<set<nat>>, g: set<nat> -> set<nat>, w: set<nat> -> nat, wg: set<nat> -> nat)
    requires forall s :: s in family ==> wg(s) == w(g(s))
    ensures Sum(set s | s in family :: g(s), w) <= Sum(family, wg)
    decreases |family|
  {
    if family != {} {
      var s :| s in family;
      var rest := family - {s};
      SumRemove(family, wg, s);
      SumImage(rest, g, w, wg);
      ImageSplit(family, g, s);
      SumAddOne(set t | t in rest :: g(t), w, g(s));
    }
  }

  /** Adding one element adds at most its weight. */
  lemma SumAddOne(base: set<set<nat>>, w: set<nat> -> nat, x: set<nat>)
    ensures Sum(base + {x}, w) <= Sum(base, w) + w(x)
  {
    if x in base {
      assert base + {x} == base;
    } else {
      SumRemove(base + {x}, w, x);
      assert base + {x} - {x} == base;
    }
  }

  lemma ImageSplit(family: set<set<nat>>, g: set<nat> -> set<nat>, s: set<nat>)
    requires s in family
    ensures (set t | t in family :: g(t)) == (set t | t in family - {s} :: g(t)) + {g(s)}
  {
    var image := set t | t in family :: g(t);
    forall t | t in image
      ensures t in (set t | t in family - {s} :: g(t)) + {g(s)}
    {
      var u :| u in family && t == g(u);
      if u != s {
        assert u in family - {s};
      }
    }
  }

  /** A finite non-empty family has a member of largest cardinality. */
  lemma {:induction false} MaxCardExists(family: set<set<nat>>)
    requires family != {}
    ensures exists m :: m in family && forall s :: s in family ==> |s| <= |m|
    decreases |family|
  {
    var x :| x in family;
    if family != {x} {
      MaxCardExists(family - {x});
      var m :| m in family - {x} && forall s :: s in family - {x} ==> |s| <= |m|;
      var big := if |m| < |x| then x else m;
      assert big in family;
      forall s | s in family
        ensures |s| <= |big|
      {
        if s != x {
          assert s in family - {x};
        }
      }
    } else {
      assert forall s :: s in family ==> |s| <= |x|;
    }
  }

  /** The image of a finite set has at most as many elements. */
  lemma {:induction false} CardImage(s: set<set<nat>>, g: set<nat> -> set<nat>)
    ensures |set x | x in s :: g(x)| <= |s|
    decreases |s|
  {
    if s != {} {
      var x :| x in s;
      CardImage(s - {x}, g);
      assert (set y | y in s :: g(y)) == (set y | y in s - {x} :: g(y)) + {g(x)};
    }
  }

  /** Every index between two members is a member. */
  ghost predicate Contiguous(s: set<nat>)
  {
    forall x, z :: x in s && z in s && x < z ==> Range(x, z) <= s
  }

  /** Between two members of a contiguous set lies nothing outside it. */
  lemma InBetween(s: set<nat>, a: nat, b: nat, y: nat)
    requires Contiguous(s) && a in s && b in s && (a <= y <= b || b <= y <= a)
    ensures y in s
  {
    if a < y < b {
      assert y in Range(a, b);
    }
    if b < y < a {
      assert y in Range(b, a);
    }
  }
}
