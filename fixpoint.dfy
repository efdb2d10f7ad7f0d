/** The convergence engine: apply a transformation until it returns its own input. */
module Fixpoint {

  /** The caller's guarantee that `inv` survives one application of `f`. */
  ghost predicate Preserves<T(!new)>(f: T -> T, inv: T -> bool)
  {
    forall y {:trigger f(y)} :: inv(y) ==> inv(f(y))
  }

  /** The caller's guarantee that every application of `f` that changes its input lowers `rank`. */
  ghost predicate Converges<T(!new)>(f: T -> T, rank: T -> nat, inv: T -> bool)
  {
    forall y {:trigger f(y)} :: inv(y) && f(y) != y ==> rank(f(y)) < rank(y)
  }

  /** The k-th value of the iteration sequence x, f(x), f(f(x)), ... */
  function Iterate<T>(f: T -> T, x: T, k: nat): T
  {
    if k == 0 then x else Iterate(f, f(x), k - 1)
  }

  /** The value the engine returns: the first value of the iteration sequence that `f` maps to itself. */
  function FirstFixpoint<T(==,!new)>(f: T -> T, x: T, ghost rank: T -> nat, ghost inv: T -> bool): (r: T)
    requires inv(x) && Preserves(f, inv) && Converges(f, rank, inv)
    ensures f(r) == r && inv(r)
    decreases rank(x)
  {
    if f(x) == x then x else FirstFixpoint(f, f(x), rank, inv)
  }

  /** The engine's result is an element of the iteration sequence, and no earlier element is fixed by `f`. */
  lemma {:induction false} FirstFixpointIsFirst<T(!new)>(f: T -> T, x: T, rank: T -> nat, inv: T -> bool)
    returns (k: nat)
    requires inv(x) && Preserves(f, inv) && Converges(f, rank, inv)
    ensures FirstFixpoint(f, x, rank, inv) == Iterate(f, x, k)
    ensures forall j :: 0 <= j < k ==> f(Iterate(f, x, j)) != Iterate(f, x, j)
    decreases rank(x)
  {
    if f(x) == x {
      k := 0;
    } else {
      var k' := FirstFixpointIsFirst(f, f(x), rank, inv);
      k := k' + 1;
      forall j | 0 <= j < k
        ensures f(Iterate(f, x, j)) != Iterate(f, x, j)
      {
        if j > 0 {
          assert Iterate(f, x, j) == Iterate(f, f(x), j - 1);
        }
      }
    }
  }

  /** The loop of the engine: keep the newest value until a step leaves it unchanged.
      The grouping calls `fixpoint` with a pure step and is specified through `FirstFixpoint`;
      the alignment's step is a method, which cannot be passed as `f`, so `Align.AlignBlock`
      runs this same loop with `Align.Step` in place of `f`. */
  method Fixpoint<T(==,!new)>(x: T, f: T -> T, ghost rank: T -> nat, ghost inv: T -> bool) returns (r: T)
    requires inv(x) && Preserves(f, inv) && Converges(f, rank, inv)
    ensures r == FirstFixpoint(f, x, rank, inv)
  {
    var current := x;
    while true
      invariant inv(current)
      invariant FirstFixpoint(f, current, rank, inv) == FirstFixpoint(f, x, rank, inv)
      decreases rank(current)
    {
      var next := f(current);
      if next == current {
        return current;
      }
      current := next;
    }
  }
}
