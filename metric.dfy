/**
 * The distance capability both index trees are generic over. An element type
 * `M` offers only `distance`; here it is a function value `dist` that each tree
 * is given, and the metric laws it is assumed to obey are stated as predicates
 * that the lemmas needing them take as preconditions.
 */
module Metric {

  /** Distances are never negative. */
  ghost predicate NonNegative<M(!new)>(dist: (M, M) -> real)
  {
    forall x: M, y: M :: 0.0 <= dist(x, y)
  }

  /** The distance from `x` to `y` is the distance from `y` to `x`. */
  ghost predicate Symmetric<M(!new)>(dist: (M, M) -> real)
  {
    forall x: M, y: M :: dist(x, y) == dist(y, x)
  }

  /** Going through a third element is never shorter. */
  ghost predicate TriangleInequality<M(!new)>(dist: (M, M) -> real)
  {
    forall x: M, y: M, z: M :: dist(x, z) <= dist(x, y) + dist(y, z)
  }

  ghost predicate IsMetric<M(!new)>(dist: (M, M) -> real)
  {
    NonNegative(dist) && Symmetric(dist) && TriangleInequality(dist)
  }
}
