/**
 * A vantage-point tree: a balanced binary index over a metric space. Each node
 * holds a vantage point and a threshold `mu`; construction puts the elements
 * no farther than `mu` from the vantage point on the left and the rest on the
 * right, and a range query uses `mu` and the triangle inequality to skip
 * subtrees that cannot hold an answer.
 */
module VantagePoint {
  import opened Metric
  import Partition

  /** An absent node (`null`) or a node with its data point, `mu`, children and cached size. */
  datatype Tree<M> = Empty | Node(data: M, mu: real, left: Tree<M>, right: Tree<M>, size: int)

  /** The elements of a tree in the order `values()` lists them: node, then left, then right. */
  function PreOrder<M>(t: Tree<M>): seq<M>
  {
    match t
    case Empty => []
    case Node(data, _, left, right, _) => [data] + PreOrder(left) + PreOrder(right)
  }

  /** How often `x` is stored in a tree. */
  ghost function Occurrences<M>(t: Tree<M>, x: M): nat
  {
    match t
    case Empty => 0
    case Node(data, _, left, right, _) => Occurrences(left, x) + Occurrences(right, x) + if data == x then 1 else 0
  }

  /** The pre-order listing holds each element as often as the tree stores it. */
  lemma {:induction false} OccurrencesOfPreOrder<M>(t: Tree<M>, x: M)
    ensures multiset(PreOrder(t))[x] == Occurrences(t, x)
  {
    match t
    case Empty =>
    case Node(data, _, left, right, _) =>
      OccurrencesOfPreOrder(left, x);
      OccurrencesOfPreOrder(right, x);
      assert PreOrder(t) == [data] + PreOrder(left) + PreOrder(right);
  }

  /** The number of nodes without children. */
  function Leaves<M>(t: Tree<M>): nat
  {
    match t
    case Empty => 0
    case Node(_, _, Empty, Empty, _) => 1
    case Node(_, _, left, right, _) => Leaves(left) + Leaves(right)
  }

  /** The cached size of a node, 0 for an absent one. */
  function SizeOf<M>(t: Tree<M>): int
  {
    if t.Empty? then 0 else t.size
  }

  /**
   * The size bookkeeping of construction: a childless node caches 1, every
   * other node the sum of its children's cached sizes (nothing for itself).
   */
  ghost predicate SizesCached<M>(t: Tree<M>)
  {
    match t
    case Empty => true
    case Node(_, _, left, right, size) =>
      && SizesCached(left) && SizesCached(right)
      && size == if left.Empty? && right.Empty? then 1 else SizeOf(left) + SizeOf(right)
  }

  /** Every node is either a leaf with `mu` left at 0, or has a left child. */
  ghost predicate Shaped<M>(t: Tree<M>)
  {
    match t
    case Empty => true
    case Node(_, mu, left, right, _) =>
      && (left.Empty? ==> right.Empty? && mu == 0.0)
      && Shaped(left) && Shaped(right)
  }

  /** Every element of `t` is at most `mu` from `p`. */
  ghost predicate Within<M>(dist: (M, M) -> real, p: M, mu: real, t: Tree<M>)
  {
    match t
    case Empty => true
    case Node(x, _, left, right, _) => dist(p, x) <= mu && Within(dist, p, mu, left) && Within(dist, p, mu, right)
  }

  /** Every element of `t` is at least `mu` from `p`. */
  ghost predicate AtLeast<M>(dist: (M, M) -> real, p: M, mu: real, t: Tree<M>)
  {
    match t
    case Empty => true
    case Node(x, _, left, right, _) => mu <= dist(p, x) && AtLeast(dist, p, mu, left) && AtLeast(dist, p, mu, right)
  }

  /** Every element of `t` is strictly farther than `mu` from `p`. */
  ghost predicate Beyond<M>(dist: (M, M) -> real, p: M, mu: real, t: Tree<M>)
  {
    match t
    case Empty => true
    case Node(x, _, left, right, _) => mu < dist(p, x) && Beyond(dist, p, mu, left) && Beyond(dist, p, mu, right)
  }

  /**
   * What the selection primitive leaves behind at every node: elements of the
   * left subtree are at most `mu` from the vantage point, those of the right
   * subtree at least `mu`.
   */
  ghost predicate Partitioned<M>(dist: (M, M) -> real, t: Tree<M>)
  {
    match t
    case Empty => true
    case Node(p, mu, left, right, _) =>
      && Within(dist, p, mu, left) && AtLeast(dist, p, mu, right)
      && Partitioned(dist, left) && Partitioned(dist, right)
  }

  /** Like Partitioned, with elements of every right subtree strictly farther than `mu`. */
  ghost predicate StrictlyPartitioned<M>(dist: (M, M) -> real, t: Tree<M>)
  {
    match t
    case Empty => true
    case Node(p, mu, left, right, _) =>
      && Within(dist, p, mu, left) && Beyond(dist, p, mu, right)
      && StrictlyPartitioned(dist, left) && StrictlyPartitioned(dist, right)
  }

  /** Within holds exactly when every element is at most `mu` from `p`. */
  lemma {:induction false} WithinMembers<M>(dist: (M, M) -> real, p: M, mu: real, t: Tree<M>)
    ensures Within(dist, p, mu, t) <==> forall x | x in PreOrder(t) :: dist(p, x) <= mu
  {
    match t
    case Empty =>
    case Node(_, _, left, right, _) =>
      WithinMembers(dist, p, mu, left);
      WithinMembers(dist, p, mu, right);
  }

  /** Beyond holds exactly when every element is strictly farther than `mu` from `p`. */
  lemma {:induction false} BeyondMembers<M>(dist: (M, M) -> real, p: M, mu: real, t: Tree<M>)
    ensures Beyond(dist, p, mu, t) <==> forall x | x in PreOrder(t) :: mu < dist(p, x)
  {
    match t
    case Empty =>
    case Node(_, _, left, right, _) =>
      BeyondMembers(dist, p, mu, left);
      BeyondMembers(dist, p, mu, right);
  }

  /** Everything construction establishes about a tree. */
  ghost predicate WellBuilt<M>(dist: (M, M) -> real, t: Tree<M>)
  {
    SizesCached(t) && Shaped(t) && Partitioned(dist, t)
  }

  // ---------------------------------------------------------------------------
  // Size

  /** The cached size of a tree is its number of leaves, not its number of elements. */
  lemma {:induction false} SizeCountsLeaves<M>(t: Tree<M>)
    requires SizesCached(t)
    ensures SizeOf(t) == Leaves(t)
  {
    match t
    case Empty =>
    case Node(_, _, left, right, _) =>
      SizeCountsLeaves(left);
      SizeCountsLeaves(right);
  }

  /** A non-empty tree has at least one leaf and no more leaves than elements. */
  lemma {:induction false} LeavesBounds<M>(t: Tree<M>)
    ensures Leaves(t) <= |PreOrder(t)|
    ensures t.Node? ==> 1 <= Leaves(t)
  {
    match t
    case Empty =>
    case Node(_, _, left, right, _) =>
      LeavesBounds(left);
      LeavesBounds(right);
  }

  /** Two elements make a root with one child, so the cached size is 1. */
  lemma TwoElementsOneLeaf<M>(t: Tree<M>)
    requires SizesCached(t) && Shaped(t) && |PreOrder(t)| == 2
    ensures SizeOf(t) == 1
  {
    assert t.left.Node?;
    assert |PreOrder(t.left)| == 1;
    assert t.left.left.Empty? && t.left.right.Empty? && t.right.Empty?;
  }

  // ---------------------------------------------------------------------------
  // Construction

  /**
   * What construction computes over positions `i` to `j` of `s` (both ends
   * included) when the selection primitive computes `select`: the permuted
   * sequence it leaves and the tree it returns. The node's data point is the
   * last element of the range; the rest of the range is split by `select`,
   * with `mu` the distance from the data point to the element at the split
   * index, and each side is built in turn.
   */
  ghost function BuildF<M(!new)>(dist: (M, M) -> real, select: Partition.Selection<M>, s: seq<M>, i: int, j: int): (r: (seq<M>, Tree<M>))
    requires Partition.Bounded(select) && 0 <= i <= j + 1 <= |s|
    ensures |r.0| == |s|
    ensures r.1.Empty? <==> i > j
    ensures i <= j ==> r.1.Node? && r.1.data == s[j]
    ensures i == j ==> r.1 == Node(s[j], 0.0, Empty, Empty, 1)
    decreases j - i, 1
  {
    if i > j then (s, Empty)
    else if i == j then (s, Node(s[j], 0.0, Empty, Empty, 1))
    else BuildStep(dist, select, s, i, j)
  }

  /** BuildF on a range of two or more positions. */
  ghost function BuildStep<M(!new)>(dist: (M, M) -> real, select: Partition.Selection<M>, s: seq<M>, i: int, j: int): (r: (seq<M>, Tree<M>))
    requires Partition.Bounded(select) && 0 <= i < j < |s|
    ensures |r.0| == |s| && r.1.Node? && r.1.data == s[j]
    decreases j - i, 0
  {
    var data := s[j];
    var (a, p) := select(data, s, i, j - 1);
    var mu := dist(data, a[p]);
    var (b, left) := BuildF(dist, select, a, i, p);
    var (c, right) := BuildF(dist, select, b, p + 1, j - 1);
    (c, Node(data, mu, left, right, SizeOf(left) + SizeOf(right)))
  }

  /** Construction permutes positions `i` to `j` only and leaves the data point at `j` where it was. */
  lemma {:induction false} BuildPermutes<M(!new)>(dist: (M, M) -> real, select: Partition.Selection<M>, s: seq<M>, i: int, j: int)
    requires Partition.Selects(dist, select) && 0 <= i <= j + 1 <= |s|
    ensures Partition.PermutesRange(BuildF(dist, select, s, i, j).0, s, i, j + 1)
    ensures i <= j ==> BuildF(dist, select, s, i, j).0[j] == s[j]
    decreases j - i
  {
    if i < j {
      var data := s[j];
      var (a, p) := select(data, s, i, j - 1);
      assert Partition.SelectsAt(dist, select, data, s, i, j - 1);
      Partition.PermutesRangeUpTo(a, s, i, j - 1 + 1, j);
      BuildPermutes(dist, select, a, i, p);
      var b := BuildF(dist, select, a, i, p).0;
      BuildPermutes(dist, select, b, p + 1, j - 1);
      var c := BuildF(dist, select, b, p + 1, j - 1).0;
      Partition.PermutesRangeUpTo(c, b, p + 1, j - 1 + 1, j);
      Partition.ComposeSplit(s, a, b, c, i, j, p);
      assert BuildF(dist, select, s, i, j).0 == c;
    }
  }

  /** The built tree holds each element as often as positions `i` to `j` do. */
  lemma {:induction false} BuildCount<M(!new)>(dist: (M, M) -> real, select: Partition.Selection<M>, s: seq<M>, i: int, j: int, x: M)
    requires Partition.Selects(dist, select) && 0 <= i <= j + 1 <= |s|
    ensures Occurrences(BuildF(dist, select, s, i, j).1, x) == Partition.Count(s, i, j + 1, x)
    decreases j - i
  {
    if i < j {
      var data := s[j];
      var (a, p) := select(data, s, i, j - 1);
      assert Partition.SelectsAt(dist, select, data, s, i, j - 1);
      BuildCount(dist, select, a, i, p, x);
      BuildPermutes(dist, select, a, i, p);
      var b := BuildF(dist, select, a, i, p).0;
      BuildCount(dist, select, b, p + 1, j - 1, x);
      Partition.CountAgree(b, a, p + 1, j, x);
      Partition.CountSplit(a, i, p + 1, j, x);
    }
  }

  /** Every element of the built tree is within `mu` of `p` when every position from `i` to `j` is. */
  lemma {:induction false} BuildWithin<M(!new)>(dist: (M, M) -> real, select: Partition.Selection<M>, s: seq<M>, i: int, j: int, p: M, mu: real)
    requires Partition.Selects(dist, select) && 0 <= i <= j + 1 <= |s|
    requires forall k | i <= k <= j :: dist(p, s[k]) <= mu
    ensures Within(dist, p, mu, BuildF(dist, select, s, i, j).1)
    decreases j - i
  {
    if i < j {
      var data := s[j];
      var (a, q) := select(data, s, i, j - 1);
      assert Partition.SelectsAt(dist, select, data, s, i, j - 1);
      Partition.PermutesRangeKeeps(a, s, i, j, (x: M) => dist(p, x) <= mu);
      BuildWithin(dist, select, a, i, q, p, mu);
      BuildPermutes(dist, select, a, i, q);
      var b := BuildF(dist, select, a, i, q).0;
      BuildWithin(dist, select, b, q + 1, j - 1, p, mu);
    }
  }

  /** Every element of the built tree is at least `mu` from `p` when every position from `i` to `j` is. */
  lemma {:induction false} BuildAtLeast<M(!new)>(dist: (M, M) -> real, select: Partition.Selection<M>, s: seq<M>, i: int, j: int, p: M, mu: real)
    requires Partition.Selects(dist, select) && 0 <= i <= j + 1 <= |s|
    requires forall k | i <= k <= j :: mu <= dist(p, s[k])
    ensures AtLeast(dist, p, mu, BuildF(dist, select, s, i, j).1)
    decreases j - i
  {
    if i < j {
      var data := s[j];
      var (a, q) := select(data, s, i, j - 1);
      assert Partition.SelectsAt(dist, select, data, s, i, j - 1);
      Partition.PermutesRangeKeeps(a, s, i, j, (x: M) => mu <= dist(p, x));
      BuildAtLeast(dist, select, a, i, q, p, mu);
      BuildPermutes(dist, select, a, i, q);
      var b := BuildF(dist, select, a, i, q).0;
      BuildAtLeast(dist, select, b, q + 1, j - 1, p, mu);
    }
  }

  /** The built tree caches its sizes, has the construction's shape and is partitioned at every node. */
  lemma {:induction false} BuildWellBuilt<M(!new)>(dist: (M, M) -> real, select: Partition.Selection<M>, s: seq<M>, i: int, j: int)
    requires Partition.Selects(dist, select) && 0 <= i <= j + 1 <= |s|
    ensures WellBuilt(dist, BuildF(dist, select, s, i, j).1)
    decreases j - i
  {
    if i < j {
      var data := s[j];
      var (a, p) := select(data, s, i, j - 1);
      assert Partition.SelectsAt(dist, select, data, s, i, j - 1);
      var mu := dist(data, a[p]);
      BuildWellBuilt(dist, select, a, i, p);
      BuildWithin(dist, select, a, i, p, data, mu);
      BuildPermutes(dist, select, a, i, p);
      var b := BuildF(dist, select, a, i, p).0;
      BuildWellBuilt(dist, select, b, p + 1, j - 1);
      BuildAtLeast(dist, select, b, p + 1, j - 1, data, mu);
    }
  }

  /** Every element of the built tree is farther than `mu` from `p` when every position from `i` to `j` is. */
  lemma {:induction false} BuildBeyond<M(!new)>(dist: (M, M) -> real, select: Partition.Selection<M>, s: seq<M>, i: int, j: int, p: M, mu: real)
    requires Partition.Selects(dist, select) && 0 <= i <= j + 1 <= |s|
    requires forall k | i <= k <= j :: mu < dist(p, s[k])
    ensures Beyond(dist, p, mu, BuildF(dist, select, s, i, j).1)
    decreases j - i
  {
    if i < j {
      var data := s[j];
      var (a, q) := select(data, s, i, j - 1);
      assert Partition.SelectsAt(dist, select, data, s, i, j - 1);
      Partition.PermutesRangeKeeps(a, s, i, j, (x: M) => mu < dist(p, x));
      BuildBeyond(dist, select, a, i, q, p, mu);
      BuildPermutes(dist, select, a, i, q);
      var b := BuildF(dist, select, a, i, q).0;
      BuildBeyond(dist, select, b, q + 1, j - 1, p, mu);
    }
  }

  /** A selection that splits strictly builds a tree whose every right subtree is farther than its `mu`. */
  lemma {:induction false} BuildStrictlyPartitioned<M(!new)>(dist: (M, M) -> real, select: Partition.Selection<M>, s: seq<M>, i: int, j: int)
    requires Partition.SelectsStrictly(dist, select) && 0 <= i <= j + 1 <= |s|
    ensures StrictlyPartitioned(dist, BuildF(dist, select, s, i, j).1)
    decreases j - i
  {
    if i < j {
      var data := s[j];
      var (a, p) := select(data, s, i, j - 1);
      assert Partition.SelectsAt(dist, select, data, s, i, j - 1);
      assert Partition.StrictlyAt(dist, select, data, s, i, j - 1);
      var mu := dist(data, a[p]);
      BuildStrictlyPartitioned(dist, select, a, i, p);
      BuildWithin(dist, select, a, i, p, data, mu);
      BuildPermutes(dist, select, a, i, p);
      var b := BuildF(dist, select, a, i, p).0;
      BuildStrictlyPartitioned(dist, select, b, p + 1, j - 1);
      BuildBeyond(dist, select, b, p + 1, j - 1, data, mu);
    }
  }

  /** One step of BuildF on a range of two or more positions, given the results of its three parts. */
  lemma BuildNode<M(!new)>(dist: (M, M) -> real, select: Partition.Selection<M>, s: seq<M>, i: int, j: int,
                           a: seq<M>, p: int, b: seq<M>, left: Tree<M>, c: seq<M>, right: Tree<M>)
    requires Partition.Bounded(select) && 0 <= i < j < |s|
    requires (a, p) == Partition.Apply(select, s[j], s, i, j - 1)
    requires (b, left) == BuildF(dist, select, a, i, p)
    requires (c, right) == BuildF(dist, select, b, p + 1, j - 1)
    ensures BuildF(dist, select, s, i, j) == (c, Node(s[j], dist(s[j], a[p]), left, right, SizeOf(left) + SizeOf(right)))
  {
  }

  /**
   * Builds the tree over positions `i` to `j` of `points` (both ends
   * included), permuting that range in place, as BuildF describes for the
   * selection Partition.Select computes.
   */
  method Build<M(!new)>(dist: (M, M) -> real, ghost select: Partition.Selection<M>, points: array<M>, i: int, j: int)
    returns (n: Tree<M>)
    requires Partition.Bounded(select) && Partition.Computes(dist, select)
    requires 0 <= i <= j + 1 <= points.Length
    modifies points
    decreases j - i
    ensures (points[..], n) == BuildF(dist, select, old(points[..]), i, j)
  {
    ghost var initial := points[..];
    if i > j {
      return Empty;
    }
    var data := points[j];
    if i == j {
      return Node(data, 0.0, Empty, Empty, 1);
    }
    var p := Partition.Select(dist, select, data, points, i, j - 1);
    var mu := dist(data, points[p]);
    ghost var selected := points[..];

    var left := Build(dist, select, points, i, p);
    var leftSize := 0;
    if left.Node? {
      leftSize := left.size;
    }
    ghost var built := points[..];

    var right := Build(dist, select, points, p + 1, j - 1);
    var rightSize := 0;
    if right.Node? {
      rightSize := right.size;
    }

    n := Node(data, mu, left, right, leftSize + rightSize);
    BuildNode(dist, select, initial, i, j, selected, p, built, left, points[..], right);
  }

  /** Construction over a whole sequence leaves a permutation of it behind. */
  lemma BuildWholePermutes<M(!new)>(dist: (M, M) -> real, select: Partition.Selection<M>, s: seq<M>)
    requires Partition.Selects(dist, select)
    ensures multiset(BuildF(dist, select, s, 0, |s| - 1).0) == multiset(s)
  {
    var r := BuildF(dist, select, s, 0, |s| - 1).0;
    BuildPermutes(dist, select, s, 0, |s| - 1);
    Partition.PermutesRangeUpTo(r, s, 0, |s| - 1 + 1, |s|);
    forall x ensures multiset(r)[x] == multiset(s)[x] {
      Partition.CountWhole(s, x);
      Partition.CountWhole(r, x);
    }
  }

  /** Construction over a whole sequence returns a tree holding exactly the sequence's elements. */
  lemma BuildWholeElements<M(!new)>(dist: (M, M) -> real, select: Partition.Selection<M>, s: seq<M>)
    requires Partition.Selects(dist, select)
    ensures multiset(PreOrder(BuildF(dist, select, s, 0, |s| - 1).1)) == multiset(s)
  {
    var t := BuildF(dist, select, s, 0, |s| - 1).1;
    forall x ensures multiset(PreOrder(t))[x] == multiset(s)[x] {
      BuildCount(dist, select, s, 0, |s| - 1, x);
      Partition.CountUpTo(s, 0, |s| - 1 + 1, |s|, x);
      Partition.CountWhole(s, x);
      OccurrencesOfPreOrder(t, x);
    }
  }

  /** Everything construction over a whole sequence guarantees. */
  lemma BuildWhole<M(!new)>(dist: (M, M) -> real, select: Partition.Selection<M>, s: seq<M>)
    requires Partition.Selects(dist, select)
    ensures multiset(BuildF(dist, select, s, 0, |s| - 1).0) == multiset(s)
    ensures multiset(PreOrder(BuildF(dist, select, s, 0, |s| - 1).1)) == multiset(s)
    ensures WellBuilt(dist, BuildF(dist, select, s, 0, |s| - 1).1)
  {
    BuildWholePermutes(dist, select, s);
    BuildWholeElements(dist, select, s);
    BuildWellBuilt(dist, select, s, 0, |s| - 1);
  }

  /**
   * The selection the stand-in partition computes, with what construction over
   * the whole of `s` guarantees under it.
   */
  lemma WholeConstruction<M(!new)>(dist: (M, M) -> real, s: seq<M>) returns (select: Partition.Selection<M>)
    ensures Partition.Bounded(select) && Partition.Computes(dist, select)
    ensures multiset(BuildF(dist, select, s, 0, |s| - 1).0) == multiset(s)
    ensures multiset(PreOrder(BuildF(dist, select, s, 0, |s| - 1).1)) == multiset(s)
    ensures WellBuilt(dist, BuildF(dist, select, s, 0, |s| - 1).1)
  {
    select := Partition.LomutoSelection(dist);
    BuildWhole(dist, select, s);
  }

  /**
   * Under Lomuto's partition, which puts ties on the left, the tree built over
   * the whole of `s` meets the hypothesis of QueryExact.
   */
  lemma LomutoBuildsStrictly<M(!new)>(dist: (M, M) -> real, s: seq<M>)
    ensures StrictlyPartitioned(dist, BuildF(dist, Partition.Lomuto(dist), s, 0, |s| - 1).1)
  {
    Partition.LomutoSelectsStrictly(dist);
    BuildStrictlyPartitioned(dist, Partition.Lomuto(dist), s, 0, |s| - 1);
  }

  /** Builds the tree over the whole of `points`, permuting the array in place. */
  method BuildAll<M(!new)>(dist: (M, M) -> real, points: array<M>) returns (t: Tree<M>)
    modifies points
    ensures multiset(points[..]) == multiset(old(points[..]))
    ensures WellBuilt(dist, t)
    ensures multiset(PreOrder(t)) == multiset(old(points[..]))
    ensures t.Empty? <==> points.Length == 0
    ensures points.Length > 0 ==> t.data == old(points[points.Length - 1])
  {
    ghost var select := WholeConstruction(dist, points[..]);
    t := Build(dist, select, points, 0, points.Length - 1);
  }

  /** Builds a tree from a fresh array holding `vals`; the caller's sequence is a value and stays as it was. */
  method BuildCopy<M(!new)>(dist: (M, M) -> real, vals: seq<M>) returns (t: Tree<M>)
    ensures WellBuilt(dist, t)
    ensures multiset(PreOrder(t)) == multiset(vals)
    ensures t.Empty? <==> vals == []
    ensures t.Node? ==> t.data == vals[|vals| - 1]
  {
    var all := new M[|vals|](k requires 0 <= k < |vals| => vals[k]);
    assert all[..] == vals;
    t := BuildAll(dist, all);
  }

  // ---------------------------------------------------------------------------
  // Traversal

  /** Appends the elements of `t` in pre-order to the accumulator `coll`. */
  method CollectValues<M>(t: Tree<M>, coll: seq<M>) returns (r: seq<M>)
    ensures r == coll + PreOrder(t)
  {
    r := coll;
    if t.Empty? {
      return;
    }
    r := r + [t.data];
    r := CollectValues(t.left, r);
    r := CollectValues(t.right, r);
  }

  // ---------------------------------------------------------------------------
  // Range query

  /** The pruned traversal of a range query: the elements it reports, in the order it reports them. */
  function Query<M>(dist: (M, M) -> real, t: Tree<M>, query: M, threshold: real): seq<M>
  {
    match t
    case Empty => []
    case Node(p, mu, left, right, _) =>
      var d := dist(p, query);
      (if d <= threshold then [p] else [])
      + (if d - threshold <= mu then Query(dist, left, query, threshold) else [])
      + (if d + threshold > mu then Query(dist, right, query, threshold) else [])
  }

  /** Appends what a range query on `node` reports to the accumulator `points`. */
  method Search<M>(dist: (M, M) -> real, query: M, threshold: real, points: seq<M>, node: Tree<M>)
    returns (r: seq<M>)
    decreases node
    ensures r == points + Query(dist, node, query, threshold)
  {
    r := points;
    if node.Empty? {
      return;
    }
    var p := node.data;
    var d := dist(p, query);
    if d <= threshold {
      r := r + [node.data];
    }
    ghost var here := r[|points|..];
    assert r == points + here;
    if d - threshold <= node.mu {
      r := Search(dist, query, threshold, r, node.left);
    }
    ghost var l := r[|points| + |here|..];
    assert r == points + here + l;
    if d + threshold > node.mu {
      r := Search(dist, query, threshold, r, node.right);
    }
    assert r == points + here + l + r[|points| + |here| + |l|..];
    assert Query(dist, node, query, threshold) == here + l + r[|points| + |here| + |l|..];
    Associative(points, here, l, r[|points| + |here| + |l|..]);
  }

  /** Regrouping four concatenated pieces. */
  lemma Associative<M>(a: seq<M>, b: seq<M>, c: seq<M>, d: seq<M>)
    ensures a + b + c + d == a + (b + c + d)
  {
  }

  /** Soundness: every reported element is within the threshold of the query. */
  lemma {:induction false} QuerySound<M>(dist: (M, M) -> real, t: Tree<M>, query: M, threshold: real)
    ensures forall x | x in Query(dist, t, query, threshold) :: dist(x, query) <= threshold
  {
    match t
    case Empty =>
    case Node(_, _, left, right, _) =>
      QuerySound(dist, left, query, threshold);
      QuerySound(dist, right, query, threshold);
  }

  /** A range query reports only stored elements, each at most as often as it is stored. */
  lemma {:induction false} QueryWithinValues<M>(dist: (M, M) -> real, t: Tree<M>, query: M, threshold: real)
    ensures multiset(Query(dist, t, query, threshold)) <= multiset(PreOrder(t))
  {
    match t
    case Empty =>
    case Node(_, _, left, right, _) =>
      QueryWithinValues(dist, left, query, threshold);
      QueryWithinValues(dist, right, query, threshold);
  }

  /** With non-negative distances, a negative threshold reports nothing. */
  lemma {:induction false} QueryNegativeThreshold<M(!new)>(dist: (M, M) -> real, t: Tree<M>, query: M, threshold: real)
    requires NonNegative(dist) && threshold < 0.0
    ensures Query(dist, t, query, threshold) == []
  {
    match t
    case Empty =>
    case Node(p, _, left, right, _) =>
      assert 0.0 <= dist(p, query);
      QueryNegativeThreshold(dist, left, query, threshold);
      QueryNegativeThreshold(dist, right, query, threshold);
  }

  /**
   * Exactness when every right subtree is strictly farther than `mu`: a range
   * query reports each stored element within the threshold exactly as often
   * as it is stored, and nothing else.
   */
  lemma QueryExact<M(!new)>(dist: (M, M) -> real, t: Tree<M>, query: M, threshold: real)
    requires IsMetric(dist) && StrictlyPartitioned(dist, t)
    ensures forall x :: multiset(Query(dist, t, query, threshold))[x]
                        == if dist(x, query) <= threshold then multiset(PreOrder(t))[x] else 0
  {
    forall x ensures multiset(Query(dist, t, query, threshold))[x]
                     == if dist(x, query) <= threshold then multiset(PreOrder(t))[x] else 0
    {
      QueryCount(dist, t, query, threshold, x);
      ReportedOfQuery(dist, t, query, threshold, x);
      OccurrencesOfPreOrder(t, x);
    }
  }

  /** How often a range query reports `x`. */
  ghost function Reported<M>(dist: (M, M) -> real, t: Tree<M>, query: M, threshold: real, x: M): nat
  {
    match t
    case Empty => 0
    case Node(p, mu, left, right, _) =>
      var d := dist(p, query);
      (if d <= threshold && p == x then 1 else 0)
      + (if d - threshold <= mu then Reported(dist, left, query, threshold, x) else 0)
      + (if d + threshold > mu then Reported(dist, right, query, threshold, x) else 0)
  }

  /** Reported counts the occurrences of `x` in what Query lists. */
  lemma {:induction false} ReportedOfQuery<M>(dist: (M, M) -> real, t: Tree<M>, query: M, threshold: real, x: M)
    ensures multiset(Query(dist, t, query, threshold))[x] == Reported(dist, t, query, threshold, x)
  {
    match t
    case Empty =>
    case Node(p, mu, left, right, _) =>
      ReportedOfQuery(dist, left, query, threshold, x);
      ReportedOfQuery(dist, right, query, threshold, x);
      var d := dist(p, query);
      var l, r := Query(dist, left, query, threshold), Query(dist, right, query, threshold);
      PiecesCount(d <= threshold, d - threshold <= mu, d + threshold > mu, p, l, r, x);
  }

  /** QueryExact for one element `x`, counted without multisets. */
  lemma {:induction false} QueryCount<M(!new)>(dist: (M, M) -> real, t: Tree<M>, query: M, threshold: real, x: M)
    requires IsMetric(dist) && StrictlyPartitioned(dist, t)
    ensures Reported(dist, t, query, threshold, x) == if dist(x, query) <= threshold then Occurrences(t, x) else 0
  {
    match t
    case Empty =>
    case Node(p, mu, left, right, _) =>
      QueryCount(dist, left, query, threshold, x);
      QueryCount(dist, right, query, threshold, x);
      if dist(x, query) <= threshold {
        if Occurrences(left, x) > 0 {
          LeftVisited(dist, p, mu, left, query, threshold, x);
        }
        if Occurrences(right, x) > 0 {
          RightVisited(dist, p, mu, right, query, threshold, x);
        }
      }
  }

  /** How often `x` occurs in the concatenation a query node reports: its own point and the children visited. */
  lemma PiecesCount<M>(here: bool, goLeft: bool, goRight: bool, p: M, l: seq<M>, r: seq<M>, x: M)
    ensures multiset((if here then [p] else []) + (if goLeft then l else []) + (if goRight then r else []))[x]
            == (if here && p == x then 1 else 0) + (if goLeft then multiset(l)[x] else 0) + (if goRight then multiset(r)[x] else 0)
  {
    var a, b, c := (if here then [p] else []), (if goLeft then l else []), (if goRight then r else []);
    assert multiset(a + b + c) == multiset(a) + multiset(b) + multiset(c);
  }

  /** The left subtree of a node holds an element within the threshold only if the query visits it. */
  lemma LeftVisited<M(!new)>(dist: (M, M) -> real, p: M, mu: real, left: Tree<M>, query: M, threshold: real, x: M)
    requires IsMetric(dist) && Within(dist, p, mu, left)
    requires Occurrences(left, x) > 0 && dist(x, query) <= threshold
    ensures dist(p, query) - threshold <= mu
  {
    OccurrencesOfPreOrder(left, x);
    WithinMembers(dist, p, mu, left);
    assert dist(p, query) <= dist(p, x) + dist(x, query);
  }

  /** The right subtree of a strictly partitioned node holds an element within the threshold only if the query visits it. */
  lemma RightVisited<M(!new)>(dist: (M, M) -> real, p: M, mu: real, right: Tree<M>, query: M, threshold: real, x: M)
    requires IsMetric(dist) && Beyond(dist, p, mu, right)
    requires Occurrences(right, x) > 0 && dist(x, query) <= threshold
    ensures dist(p, query) + threshold > mu
  {
    OccurrencesOfPreOrder(right, x);
    BeyondMembers(dist, p, mu, right);
    assert dist(p, x) <= dist(p, query) + dist(query, x);
    assert dist(query, x) == dist(x, query);
  }

  /**
   * The weaker partition that construction guarantees does not make the query
   * complete: on the real line, a right-hand element at exactly `mu` from the
   * vantage point is missed by a query whose `d + threshold` equals `mu`.
   */
  lemma BoundaryElementMissed()
    ensures var dist := (a: real, b: real) => if a < b then b - a else a - b;
            var t := Node(0.0, 1.0, Node(1.0, 0.0, Empty, Empty, 1), Node(-1.0, 0.0, Empty, Empty, 1), 2);
            && IsMetric(dist) && WellBuilt(dist, t)
            && -1.0 in PreOrder(t) && dist(-1.0, -0.5) <= 0.5
            && -1.0 !in Query(dist, t, -0.5, 0.5)
  {
  }

  // ---------------------------------------------------------------------------
  // The tree object

  class VantagePointTree<M(!new)> {
    const dist: (M, M) -> real
    var root: Tree<M>

    /** What construction establishes and every rebuild restores. */
    ghost predicate Valid()
      reads this
    {
      WellBuilt(dist, root)
    }

    /** Builds the tree from `points`, permuting the caller's array in place. */
    constructor (dist: (M, M) -> real, points: array<M>)
      modifies points
      ensures this.dist == dist && Valid()
      ensures multiset(points[..]) == multiset(old(points[..]))
      ensures multiset(PreOrder(root)) == multiset(old(points[..]))
      ensures root.Empty? <==> points.Length == 0
      ensures points.Length > 0 ==> root.data == old(points[points.Length - 1])
    {
      this.dist := dist;
      var n := BuildAll(dist, points);
      root := n;
    }

    /** The stored elements in pre-order. */
    method Values() returns (vals: seq<M>)
      ensures vals == PreOrder(root)
    {
      vals := CollectValues(root, []);
    }

    /**
     * Extracts the stored elements, appends `myObjects` and rebuilds the tree
     * from that fresh sequence; the caller's sequence is a value and is left
     * as it was.
     */
    method InsertAll(myObjects: seq<M>) returns (self: VantagePointTree<M>)
      modifies this
      ensures self == this && Valid()
      ensures multiset(PreOrder(root)) == multiset(old(PreOrder(root))) + multiset(myObjects)
      ensures root.Empty? <==> old(root).Empty? && myObjects == []
      ensures root.Node? ==> root.data == (old(PreOrder(root)) + myObjects)[|old(PreOrder(root))| + |myObjects| - 1]
    {
      var vals := Values();
      vals := vals + myObjects;
      assert multiset(vals) == multiset(old(PreOrder(root))) + multiset(myObjects);
      root := BuildCopy(dist, vals);
      self := this;
    }

    /** The root's cached size, or 0 for an empty tree: the number of leaves. */
    function Size(): (s: int)
      reads this
      requires Valid()
      ensures s == Leaves(root)
      ensures root.Empty? ==> s == 0
      ensures root.Node? ==> 1 <= s <= |PreOrder(root)|
    {
      SizeCountsLeaves(root);
      LeavesBounds(root);
      SizeOf(root)
    }

    /** Every stored element within `threshold` of `query` that the pruned descent reaches. */
    method RangeQuery(query: M, threshold: real) returns (points: seq<M>)
      ensures points == Query(dist, root, query, threshold)
      ensures forall x | x in points :: dist(x, query) <= threshold
      ensures multiset(points) <= multiset(PreOrder(root))
      ensures root.Empty? ==> points == []
      ensures NonNegative(dist) && threshold < 0.0 ==> points == []
      ensures IsMetric(dist) && StrictlyPartitioned(dist, root) ==>
                forall x :: multiset(points)[x] == if dist(x, query) <= threshold then multiset(PreOrder(root))[x] else 0
    {
      points := Search(dist, query, threshold, [], root);
      QuerySound(dist, root, query, threshold);
      QueryWithinValues(dist, root, query, threshold);
      if NonNegative(dist) && threshold < 0.0 {
        QueryNegativeThreshold(dist, root, query, threshold);
      }
      if IsMetric(dist) && StrictlyPartitioned(dist, root) {
        QueryExact(dist, root, query, threshold);
      }
    }
  }
}
