/**
 * A Burkhard-Keller tree: every node keeps its children under the distance
 * from the child's elements to the node's own point, so that a range query
 * only descends into children whose key is within the radius of the query's
 * own distance to the node.
 *
 * Nodes are values. A node's child map is an association list of
 * (distance, child) entries with distinct keys; `Get` and `Put` give it the
 * lookup and update of a map, and iterating over it visits each key once.
 */
module BurkhardKeller {
  import opened Metric

  /** An absent node (`null`) or a node with its point and its children keyed by distance. */
  datatype Tree<M> = Nil | Node(data: M, children: seq<(real, Tree<M>)>)

  // ---------------------------------------------------------------------------
  // The child map

  /** The position of the entry with key `k`, or `|ch|` when there is none. */
  function IndexOf<M>(ch: seq<(real, Tree<M>)>, k: real): (i: nat)
    ensures i <= |ch|
    ensures i < |ch| ==> ch[i].0 == k
    ensures forall j | 0 <= j < i :: ch[j].0 != k
  {
    if ch == [] then 0
    else if ch[0].0 == k then 0
    else 1 + IndexOf(ch[1..], k)
  }

  /** No key occurs twice. */
  ghost predicate Distinct<M>(ch: seq<(real, Tree<M>)>)
  {
    forall a, b | 0 <= a < b < |ch| :: ch[a].0 != ch[b].0
  }

  /** `children.get(k)`: the child under `k`, or `Nil` when there is none. */
  function Get<M>(ch: seq<(real, Tree<M>)>, k: real): Tree<M>
  {
    var i := IndexOf(ch, k);
    if i < |ch| then ch[i].1 else Nil
  }

  /** `children.put(k, v)`: replaces the entry under `k`, or adds one. */
  function Put<M>(ch: seq<(real, Tree<M>)>, k: real, v: Tree<M>): seq<(real, Tree<M>)>
  {
    var i := IndexOf(ch, k);
    if i < |ch| then ch[i := (k, v)] else ch + [(k, v)]
  }

  /** IndexOf is the only position meeting its own contract. */
  lemma IndexOfIs<M>(ch: seq<(real, Tree<M>)>, k: real, j: nat)
    requires j <= |ch| && (j < |ch| ==> ch[j].0 == k) && forall m | 0 <= m < j :: ch[m].0 != k
    ensures IndexOf(ch, k) == j
  {
  }

  /** After `put(k, v)` the map holds `v` under `k` and is unchanged under every other key. */
  lemma PutGet<M>(ch: seq<(real, Tree<M>)>, k: real, v: Tree<M>, k': real)
    ensures Get(Put(ch, k, v), k') == if k' == k then v else Get(ch, k')
  {
    var i := IndexOf(ch, k);
    var r := Put(ch, k, v);
    var j := IndexOf(ch, k');
    if k' == k {
      IndexOfIs(r, k, i);
    } else if i < |ch| {
      assert forall m | 0 <= m < j :: r[m].0 != k' by {
        forall m | 0 <= m < j ensures r[m].0 != k' {
          if m != i {
            assert r[m] == ch[m];
          }
        }
      }
      if j < |ch| {
        assert j != i;
        assert r[j] == ch[j];
      }
      IndexOfIs(r, k', j);
    } else if j < |ch| {
      assert forall m | 0 <= m < j :: r[m] == ch[m];
      IndexOfIs(r, k', j);
    } else {
      assert forall m | 0 <= m < |r| :: r[m].0 != k' by {
        forall m | 0 <= m < |r| ensures r[m].0 != k' {
          if m < |ch| {
            assert r[m] == ch[m];
          }
        }
      }
      IndexOfIs(r, k', |r|);
    }
  }

  /** `put` keeps the keys distinct. */
  lemma PutDistinct<M>(ch: seq<(real, Tree<M>)>, k: real, v: Tree<M>)
    requires Distinct(ch)
    ensures Distinct(Put(ch, k, v))
  {
  }

  /** A distinct-keyed list holds every entry under its own key, so looking up each key in turn visits every entry's child. */
  lemma GetEntry<M>(ch: seq<(real, Tree<M>)>, j: nat)
    requires Distinct(ch) && j < |ch|
    ensures Get(ch, ch[j].0) == ch[j].1
  {
    IndexOfIs(ch, ch[j].0, j);
  }

  // ---------------------------------------------------------------------------
  // Invariants

  /** Every child entry holds a real node, and no node has two entries under one key. */
  ghost predicate Proper<M>(t: Tree<M>)
  {
    match t
    case Nil => true
    case Node(_, ch) =>
      && Distinct(ch)
      && forall j | 0 <= j < |ch| :: ch[j].1.Node? && Proper(ch[j].1)
  }

  /** Every element stored in `t` is at distance exactly `k` from `p`. */
  ghost predicate Under<M>(dist: (M, M) -> real, p: M, k: real, t: Tree<M>)
  {
    match t
    case Nil => true
    case Node(x, ch) => dist(x, p) == k && forall j | 0 <= j < |ch| :: Under(dist, p, k, ch[j].1)
  }

  /** The subtree invariant: the child under key `k` holds only elements at distance `k` from the node. */
  ghost predicate Keyed<M>(dist: (M, M) -> real, t: Tree<M>)
  {
    match t
    case Nil => true
    case Node(p, ch) => forall j | 0 <= j < |ch| :: Under(dist, p, ch[j].0, ch[j].1) && Keyed(dist, ch[j].1)
  }

  // ---------------------------------------------------------------------------
  // Contents

  /** The elements stored in a tree, one per node. */
  ghost function Elements<M>(t: Tree<M>): multiset<M>
    decreases t, 1, 0
  {
    match t
    case Nil => multiset{}
    case Node(p, _) => multiset{p} + ElementsFrom(t, 0)
  }

  /** The elements stored under the children of `t` from position `i` on. */
  ghost function ElementsFrom<M>(t: Tree<M>, i: nat): multiset<M>
    requires t.Node? && i <= |t.children|
    decreases t, 0, |t.children| - i
  {
    if i == |t.children| then multiset{} else Elements(t.children[i].1) + ElementsFrom(t, i + 1)
  }

  /** Every element under `p`'s child keyed `k` is at distance `k` from `p`. */
  lemma {:induction false} UnderElements<M>(dist: (M, M) -> real, p: M, k: real, t: Tree<M>, x: M)
    requires Under(dist, p, k, t)
    ensures x in Elements(t) ==> dist(x, p) == k
    decreases t, 1, 0
  {
    match t
    case Nil =>
    case Node(_, _) =>
      UnderElementsFrom(dist, p, k, t, 0, x);
  }

  /** UnderElements for the children of `t` from position `i` on. */
  lemma {:induction false} UnderElementsFrom<M>(dist: (M, M) -> real, p: M, k: real, t: Tree<M>, i: nat, x: M)
    requires t.Node? && i <= |t.children| && Under(dist, p, k, t)
    ensures x in ElementsFrom(t, i) ==> dist(x, p) == k
    decreases t, 0, |t.children| - i
  {
    if i < |t.children| {
      UnderElements(dist, p, k, t.children[i].1, x);
      UnderElementsFrom(dist, p, k, t, i + 1, x);
    }
  }

  /** Children from position `i` on that are the same trees hold the same elements. */
  lemma {:induction false} ElementsFromAgree<M>(t: Tree<M>, u: Tree<M>, i: nat)
    requires t.Node? && u.Node? && |t.children| == |u.children| && i <= |t.children|
    requires forall j | i <= j < |t.children| :: t.children[j].1 == u.children[j].1
    ensures ElementsFrom(t, i) == ElementsFrom(u, i)
    decreases |t.children| - i
  {
    if i < |t.children| {
      ElementsFromAgree(t, u, i + 1);
    }
  }

  /** A child at position `m` that gains `extra` elements makes the children from `i` on gain them. */
  lemma {:induction false} ElementsFromReplace<M>(t: Tree<M>, u: Tree<M>, i: nat, m: nat, extra: multiset<M>)
    requires t.Node? && u.Node? && |t.children| == |u.children| && i <= m < |t.children|
    requires forall j | i <= j < |t.children| && j != m :: t.children[j].1 == u.children[j].1
    requires Elements(u.children[m].1) == Elements(t.children[m].1) + extra
    ensures ElementsFrom(u, i) == ElementsFrom(t, i) + extra
    decreases m - i
  {
    if i < m {
      ElementsFromReplace(t, u, i + 1, m, extra);
    } else {
      ElementsFromAgree(t, u, m + 1);
    }
  }

  /** Adding a child entry at the end adds its elements. */
  lemma {:induction false} ElementsFromAppend<M>(t: Tree<M>, u: Tree<M>, i: nat)
    requires t.Node? && u.Node? && |u.children| == |t.children| + 1 && i <= |t.children|
    requires u.children[..|t.children|] == t.children
    ensures ElementsFrom(u, i) == ElementsFrom(t, i) + Elements(u.children[|t.children|].1)
    decreases |t.children| - i
  {
    if i < |t.children| {
      assert u.children[i] == t.children[i];
      ElementsFromAppend(t, u, i + 1);
    } else {
      assert ElementsFrom(u, i + 1) == multiset{};
    }
  }

  // ---------------------------------------------------------------------------
  // Insertion

  /**
   * Inserts `point` below `t`: an absent node becomes a leaf holding `point`;
   * otherwise `point` goes into the child under its distance to the node's point.
   */
  function Insert<M>(dist: (M, M) -> real, point: M, t: Tree<M>): (r: Tree<M>)
    ensures r.Node?
    ensures t.Nil? ==> r == Node(point, [])
    ensures t.Node? ==> r.data == t.data
  {
    match t
    case Nil => Node(point, [])
    case Node(p, ch) =>
      var k := dist(point, p);
      var i := IndexOf(ch, k);
      var sub := if i < |ch| then Insert(dist, point, ch[i].1) else Node(point, []);
      Node(p, Put(ch, k, sub))
  }

  /**
   * Insertion below a present node keeps the node's point and replaces only the
   * child under the new point's distance to it, by the insertion into that child.
   */
  lemma InsertUpdatesOneChild<M>(dist: (M, M) -> real, point: M, t: Tree<M>, k: real)
    requires t.Node?
    ensures Insert(dist, point, t).data == t.data
    ensures Get(Insert(dist, point, t).children, k)
            == if k == dist(point, t.data) then Insert(dist, point, Get(t.children, k)) else Get(t.children, k)
  {
    var d := dist(point, t.data);
    PutGet(t.children, d, Insert(dist, point, Get(t.children, d)), k);
  }

  /** Each insertion stores exactly one more element: the inserted point. */
  lemma {:induction false} InsertElements<M>(dist: (M, M) -> real, point: M, t: Tree<M>)
    ensures Elements(Insert(dist, point, t)) == Elements(t) + multiset{point}
  {
    match t
    case Nil =>
      assert ElementsFrom(Node(point, []), 0) == multiset{};
    case Node(p, ch) =>
      var k := dist(point, p);
      var i := IndexOf(ch, k);
      var u := Insert(dist, point, t);
      if i < |ch| {
        InsertElements(dist, point, ch[i].1);
        assert u.children == ch[i := (k, Insert(dist, point, ch[i].1))];
        ElementsFromReplace(t, u, 0, i, multiset{point});
      } else {
        assert ElementsFrom(Node(point, []), 0) == multiset{};
        assert u.children[..|ch|] == ch;
        ElementsFromAppend(t, u, 0);
      }
  }

  /** Insertion keeps every child entry a real node and the keys distinct. */
  lemma {:induction false} InsertProper<M>(dist: (M, M) -> real, point: M, t: Tree<M>)
    requires Proper(t)
    ensures Proper(Insert(dist, point, t))
  {
    match t
    case Nil =>
    case Node(p, ch) =>
      var k := dist(point, p);
      var i := IndexOf(ch, k);
      PutDistinct(ch, k, Insert(dist, point, Get(ch, k)));
      if i < |ch| {
        InsertProper(dist, point, ch[i].1);
      }
  }

  /** A point at distance `k` from `p` may be inserted below a child keyed `k` of `p`. */
  lemma {:induction false} UnderInsert<M>(dist: (M, M) -> real, p: M, k: real, point: M, t: Tree<M>)
    requires Under(dist, p, k, t) && dist(point, p) == k
    ensures Under(dist, p, k, Insert(dist, point, t))
  {
    match t
    case Nil =>
    case Node(x, ch) =>
      var i := IndexOf(ch, dist(point, x));
      if i < |ch| {
        UnderInsert(dist, p, k, point, ch[i].1);
      }
  }

  /** Insertion preserves the subtree invariant. */
  lemma {:induction false} InsertKeyed<M>(dist: (M, M) -> real, point: M, t: Tree<M>)
    requires Keyed(dist, t)
    ensures Keyed(dist, Insert(dist, point, t))
  {
    match t
    case Nil =>
    case Node(p, ch) =>
      var k := dist(point, p);
      var i := IndexOf(ch, k);
      if i < |ch| {
        UnderInsert(dist, p, k, point, ch[i].1);
        InsertKeyed(dist, point, ch[i].1);
      }
  }

  // ---------------------------------------------------------------------------
  // Range query

  /** The query descends into the child under key `k` when `|d - k| <= radius`. */
  predicate Visits(d: real, k: real, radius: real)
  {
    d - k <= radius && k - d <= radius
  }

  /** What a range query around `element` reports below `t`, with multiplicity. */
  ghost function Found<M>(dist: (M, M) -> real, t: Tree<M>, element: M, radius: real): multiset<M>
    decreases t, 1, 0
  {
    match t
    case Nil => multiset{}
    case Node(p, _) =>
      (if dist(element, p) <= radius then multiset{p} else multiset{}) + FoundFrom(dist, t, element, radius, 0)
  }

  /** What the query reports below the children of `t` from position `i` on. */
  ghost function FoundFrom<M>(dist: (M, M) -> real, t: Tree<M>, element: M, radius: real, i: nat): multiset<M>
    requires t.Node? && i <= |t.children|
    decreases t, 0, |t.children| - i
  {
    if i == |t.children| then multiset{}
    else
      (if Visits(dist(element, t.data), t.children[i].0, radius)
       then Found(dist, t.children[i].1, element, radius) else multiset{})
      + FoundFrom(dist, t, element, radius, i + 1)
  }

  /**
   * Soundness: the query reports an element only if it is within `radius`
   * of `element`, and at most as often as it is stored.
   */
  lemma {:induction false} FoundBound<M>(dist: (M, M) -> real, t: Tree<M>, element: M, radius: real, x: M)
    ensures Found(dist, t, element, radius)[x] <= if dist(element, x) <= radius then Elements(t)[x] else 0
    decreases t, 1, 0
  {
    match t
    case Nil =>
    case Node(_, _) =>
      FoundFromBound(dist, t, element, radius, 0, x);
  }

  /** FoundBound for the children of `t` from position `i` on. */
  lemma {:induction false} FoundFromBound<M>(dist: (M, M) -> real, t: Tree<M>, element: M, radius: real, i: nat, x: M)
    requires t.Node? && i <= |t.children|
    ensures FoundFrom(dist, t, element, radius, i)[x]
            <= if dist(element, x) <= radius then ElementsFrom(t, i)[x] else 0
    decreases t, 0, |t.children| - i
  {
    if i < |t.children| {
      FoundBound(dist, t.children[i].1, element, radius, x);
      FoundFromBound(dist, t, element, radius, i + 1, x);
    }
  }

  /**
   * An element within `radius` of the query, stored under the child keyed `k`
   * of `p`, makes the query visit that child.
   */
  lemma Visited<M(!new)>(dist: (M, M) -> real, element: M, p: M, k: real, radius: real, x: M)
    requires Symmetric(dist) && TriangleInequality(dist)
    requires dist(x, p) == k && dist(element, x) <= radius
    ensures Visits(dist(element, p), k, radius)
  {
    assert dist(element, p) <= dist(element, x) + dist(x, p);
    assert dist(x, p) <= dist(x, element) + dist(element, p);
    assert dist(x, element) == dist(element, x);
  }

  /**
   * Completeness: with a symmetric distance obeying the triangle inequality,
   * the query reports every stored element within `radius` exactly as often
   * as it is stored.
   */
  lemma {:induction false} FoundExact<M(!new)>(dist: (M, M) -> real, t: Tree<M>, element: M, radius: real, x: M)
    requires Symmetric(dist) && TriangleInequality(dist) && Keyed(dist, t)
    ensures Found(dist, t, element, radius)[x] == if dist(element, x) <= radius then Elements(t)[x] else 0
    decreases t, 1, 0
  {
    match t
    case Nil =>
    case Node(_, _) =>
      FoundFromExact(dist, t, element, radius, 0, x);
  }

  /** FoundExact for the children of `t` from position `i` on. */
  lemma {:induction false} FoundFromExact<M(!new)>(dist: (M, M) -> real, t: Tree<M>, element: M, radius: real, i: nat, x: M)
    requires Symmetric(dist) && TriangleInequality(dist) && Keyed(dist, t)
    requires t.Node? && i <= |t.children|
    ensures FoundFrom(dist, t, element, radius, i)[x]
            == if dist(element, x) <= radius then ElementsFrom(t, i)[x] else 0
    decreases t, 0, |t.children| - i
  {
    if i < |t.children| {
      var (k, c) := t.children[i];
      FoundExact(dist, c, element, radius, x);
      FoundFromExact(dist, t, element, radius, i + 1, x);
      if dist(element, x) <= radius && x in Elements(c) {
        UnderElements(dist, t.data, k, c, x);
        Visited(dist, element, t.data, k, radius, x);
      }
    }
  }

  /**
   * Appends what a range query on `node` reports to `returnSet`: it visits
   * each key of the child map in turn and looks the child up by that key.
   */
  method Search<M>(dist: (M, M) -> real, element: M, radius: real, returnSet: seq<M>, node: Tree<M>)
    returns (r: seq<M>)
    requires node.Node? && Proper(node)
    ensures multiset(r) == multiset(returnSet) + Found(dist, node, element, radius)
    decreases node
  {
    r := returnSet;
    var distance := dist(element, node.data);
    if distance <= radius {
      r := r + [node.data];
    }
    for i := 0 to |node.children|
      invariant multiset(r) + FoundFrom(dist, node, element, radius, i)
                == multiset(returnSet) + Found(dist, node, element, radius)
    {
      var distanceToChild := node.children[i].0;
      if distance - distanceToChild <= radius && distanceToChild - distance <= radius {
        GetEntry(node.children, i);
        var child := Get(node.children, distanceToChild);
        r := Search(dist, element, radius, r, child);
      }
    }
    assert FoundFrom(dist, node, element, radius, |node.children|) == multiset{};
  }

  // ---------------------------------------------------------------------------
  // The tree object

  class BurkhardKellerTree<M(!new)> {
    const dist: (M, M) -> real
    var root: Tree<M>

    /** What every operation keeps: real child nodes, distinct keys, and the subtree invariant. */
    ghost predicate Valid()
      reads this
    {
      Proper(root) && Keyed(dist, root)
    }

    /** Inserts the points one after another into an initially absent root. */
    constructor(dist: (M, M) -> real, points: seq<M>)
      ensures this.dist == dist && Valid()
      ensures Elements(root) == multiset(points)
      ensures |Elements(root)| == |points|
      ensures root.Nil? <==> points == []
    {
      this.dist := dist;
      var t := Nil;
      for i := 0 to |points|
        invariant Proper(t) && Keyed(dist, t)
        invariant Elements(t) == multiset(points[..i])
        invariant t.Nil? <==> i == 0
      {
        InsertElements(dist, points[i], t);
        InsertProper(dist, points[i], t);
        InsertKeyed(dist, points[i], t);
        t := Insert(dist, points[i], t);
        assert points[..i + 1] == points[..i] + [points[i]];
      }
      assert points[..|points|] == points;
      root := t;
    }

    /**
     * Lists the stored elements within `radius` of `element`. The root must
     * be present: the query reads the root's point unconditionally.
     */
    method RangeQuery(element: M, radius: real) returns (returnSet: seq<M>)
      requires Valid() && root.Node?
      ensures multiset(returnSet) == Found(dist, root, element, radius)
      ensures forall x | x in returnSet :: dist(element, x) <= radius
      ensures multiset(returnSet) <= Elements(root)
      ensures Symmetric(dist) && TriangleInequality(dist) ==>
                forall x | dist(element, x) <= radius :: multiset(returnSet)[x] == Elements(root)[x]
    {
      returnSet := Search(dist, element, radius, [], root);
      forall x
        ensures multiset(returnSet)[x] <= if dist(element, x) <= radius then Elements(root)[x] else 0
      {
        FoundBound(dist, root, element, radius, x);
      }
      assert forall x :: multiset(returnSet)[x] <= Elements(root)[x];
      if Symmetric(dist) && TriangleInequality(dist) {
        forall x | dist(element, x) <= radius
          ensures multiset(returnSet)[x] == Elements(root)[x]
        {
          FoundExact(dist, root, element, radius, x);
        }
      }
    }
  }
}
