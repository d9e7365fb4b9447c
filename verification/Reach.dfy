/**
  Bounded reachability over a finite relation, independent of any search: the
  reference that the graph searches of the dashboard server are measured by.
 */
module Reach {
  import opened Prelude

  type Rel<T(==)> = set<(T, T)>

  /** `x` is reachable from `s` in at most `k` steps. */
  ghost predicate Within<T(!new)>(rel: Rel<T>, s: T, k: nat, x: T)
    decreases k, 0
  {
    if k == 0 then x == s else Within(rel, s, k - 1, x) || Touches(rel, s, k - 1, x)
  }

  /** `x` is one step away from something within `k` steps. */
  ghost predicate Touches<T(!new)>(rel: Rel<T>, s: T, k: nat, x: T)
    decreases k, 1
  {
    exists y :: Within(rel, s, k, y) && (y, x) in rel
  }

  /** `p` is a non-empty walk from `s` to `t`. */
  ghost predicate Joins<T(!new)>(rel: Rel<T>, p: seq<T>, s: T, t: T) {
    && |p| > 0 && p[0] == s && p[|p| - 1] == t
    && forall i :: 0 < i < |p| ==> (p[i - 1], p[i]) in rel
  }

  ghost predicate Symmetric<T(!new)>(rel: Rel<T>) {
    forall x, y :: (x, y) in rel ==> (y, x) in rel
  }

  lemma {:induction false} WithinGrows<T(!new)>(rel: Rel<T>, s: T, j: nat, k: nat, x: T)
    requires j <= k && Within(rel, s, j, x)
    ensures Within(rel, s, k, x)
    decreases k
  {
    if j < k {
      WithinGrows(rel, s, j, k - 1, x);
    }
  }

  /** Only the surface of a ball has neighbours outside it. */
  lemma OnSurface<T(!new)>(rel: Rel<T>, s: T, k: nat, y: T, x: T)
    requires (y, x) in rel && !Within(rel, s, k, x)
    ensures k > 0 ==> !Within(rel, s, k - 1, y)
  {
    assert k > 0 ==> !Touches(rel, s, k - 1, x);
  }

  /** A walk of `n` steps ends within distance `n` of its start. */
  lemma {:induction false} WalkWithin<T(!new)>(rel: Rel<T>, p: seq<T>, s: T, t: T)
    requires Joins(rel, p, s, t)
    ensures Within(rel, s, |p| - 1, t)
    decreases |p|
  {
    if |p| > 1 {
      WalkWithin(rel, p[..|p| - 1], s, p[|p| - 2]);
      assert Touches(rel, s, |p| - 2, t);
    }
  }

  ghost predicate Stuck<T(!new)>(rel: Rel<T>, s: T, k: nat) {
    forall x :: Touches(rel, s, k, x) ==> Within(rel, s, k, x)
  }

  /** Once no step leads out of what is within `k`, nothing further away is ever reached. */
  lemma {:induction false} StuckForever<T(!new)>(rel: Rel<T>, s: T, j: nat, k: nat, x: T)
    requires j <= k && Stuck(rel, s, j) && Within(rel, s, k, x)
    ensures Within(rel, s, j, x)
    decreases k
  {
    if j < k && !Within(rel, s, k - 1, x) {
      var y :| Within(rel, s, k - 1, y) && (y, x) in rel;
      StuckForever(rel, s, j, k - 1, y);
    } else if j < k {
      StuckForever(rel, s, j, k - 1, x);
    }
  }

  /** Reversing a walk over a symmetric relation gives a walk. */
  lemma ReverseWalk<T(!new)>(rel: Rel<T>, p: seq<T>, s: T, t: T)
    requires Joins(rel, p, s, t) && Symmetric(rel)
    ensures Joins(rel, Reversed(p), t, s)
  {
    var r := Reversed(p);
    forall i | 0 < i < |r| ensures (r[i - 1], r[i]) in rel {
      assert (p[|p| - i - 1], p[|p| - i]) in rel;
    }
  }

  lemma JoinWalks<T(!new)>(rel: Rel<T>, p: seq<T>, q: seq<T>, s: T, m: T, t: T)
    requires Joins(rel, p, s, m) && Joins(rel, q, m, t)
    ensures Joins(rel, p + q[1..], s, t)
  {
    var w := p + q[1..];
    forall i | 0 < i < |w| ensures (w[i - 1], w[i]) in rel {
      if i >= |p| {
        assert w[i] == q[i - |p| + 1] && w[i - 1] == q[i - |p|];
      }
    }
  }

  /** Nothing is both within `a` of `s` and within `b` of `t`. */
  ghost predicate Apart<T(!new)>(rel: Rel<T>, s: T, a: nat, t: T, b: nat) {
    forall x :: !(Within(rel, s, a, x) && Within(rel, t, b, x))
  }

  /**
    While the balls of a bidirectional search are disjoint, every walk between the two
    centres takes more than the sum of the radii. That is why stopping at the first vertex
    seen from both sides is enough.
   */
  lemma ApartIsFar<T(!new)>(rel: Rel<T>, s: T, a: nat, t: T, b: nat, p: seq<T>)
    requires Symmetric(rel) && Joins(rel, p, s, t) && Apart(rel, s, a, t, b)
    ensures |p| - 1 > a + b
  {
    if |p| - 1 <= a + b {
      var i := if a < |p| - 1 then a else |p| - 1;
      MidWithin(rel, s, a, p, i, t);
      ReverseWalk(rel, p, s, t);
      MidWithin(rel, t, b, Reversed(p), |p| - 1 - i, s);
    }
  }

  lemma MidWithin<T(!new)>(rel: Rel<T>, s: T, a: nat, p: seq<T>, i: nat, t: T)
    requires Joins(rel, p, s, t) && i < |p| && i <= a
    ensures Within(rel, s, a, p[i])
  {
    WalkWithin(rel, p[..i + 1], s, p[i]);
    WithinGrows(rel, s, i, a, p[i]);
  }
}
