# metric-indexes in Dafny

This project models the two metric-space indexes of `metric-indexes`, with proofs about them:

- **Vantage-point tree.** A binary tree. Each node holds a vantage point (the last element of its range) and a threshold `mu`. Construction splits the rest of the range with a selection primitive. The elements no farther than `mu` from the vantage point go left and the elements no nearer go right. An element at exactly `mu` may land on either side. A range query prunes a subtree when the triangle inequality shows it cannot hold an answer.
- **Burkhard-Keller tree.** Each node keeps its children in a map keyed by the distance from the child's elements to the node's point. A range query descends only into children whose key is within the radius of the query's own distance to the node.

The distance `Element.distance` becomes a parameter `dist: (M, M) -> real`, held as a constant field of each tree object. The metric axioms (module `Metric`) are required only by the properties that need them.

**Module layout.**

- `Metric`: the metric axioms.
- `Partition`: the selection contract that the vantage-point construction relies on, and a stand-in that meets it.
  - The source calls a selection primitive `Partition.select`, which aims at the median but whose code is not part of this model.
  - `Partition.Select` stands in for it: an in-place Lomuto partition over an `array`, proved to meet the contract.
  - Every construction lemma is stated for any selection that meets the contract, not only for the stand-in.
- `VantagePoint`:
  - the tree datatype;
  - the specification functions (`PreOrder`, `BuildF`, `Query`);
  - the recursive in-place `Build` method over an `array`;
  - the traversal methods;
  - the `VantagePointTree` class.
- `BurkhardKeller`:
  - the tree datatype, with a node's child map as an association list of `(distance, child)` entries with distinct keys;
  - `Insert` as a function;
  - the range query as a method that loops over the child entries;
  - the `BurkhardKellerTree` class, whose constructor loops over the points.

**Where the model differs from what the names suggest.**

- **`size()` counts leaves.** A childless node caches 1. Every other node caches the sum of its children's sizes and nothing for itself. So `size()` returns the number of leaves, not the number of stored elements. The model follows the code. `SizeCountsLeaves` proves that the cached size equals `Leaves`, and `TwoElementsOneLeaf` shows a two-element tree of size 1.
- **The vantage-point query is complete only for a strict partition.** The selection contract puts an element at *exactly* the split distance on either side. At such a boundary, the query's right-hand test `d + threshold > mu` can miss an answer that is stored on the right:
  - `BoundaryElementMissed` exhibits this on the real line;
  - `QueryExact` and `RangeQuery` prove completeness for trees whose right subtrees are strictly farther than `mu`.
  - `LomutoBuildsStrictly` shows that the stand-in selection, which puts ties on the left, always builds such a tree.

## Model

| member | source | states |
|---|---|---|
| Partition.SelectF | src/main/java/uk/co/robertgmoss/metric/indexes/VantagePointTree.java:59 | for the stand-in selection, not code at this line: the partitioned sequence keeps its length, and the split index lies inside the range |
| Partition.ScanPermutes | src/main/java/uk/co/robertgmoss/metric/indexes/VantagePointTree.java:59 | for the stand-in selection, not code at this line: its scan only rearranges the positions it has visited |
| Partition.ScanSplits | src/main/java/uk/co/robertgmoss/metric/indexes/VantagePointTree.java:59 | for the stand-in selection, not code at this line: after its scan, the elements below its boundary are no farther than the pivot distance and those above are farther |
| Partition.SelectSplits | src/main/java/uk/co/robertgmoss/metric/indexes/VantagePointTree.java:59 | the selection permutes positions i to j only and splits them at the returned index: no farther on the left, no nearer on the right |
| Partition.SelectSplitsStrictly | src/main/java/uk/co/robertgmoss/metric/indexes/VantagePointTree.java:59 | the stand-in puts every tie with the split element on its left, so every element right of the split is strictly farther |
| Partition.LomutoSelects | src/main/java/uk/co/robertgmoss/metric/indexes/VantagePointTree.java:59 | the partition meets the selection contract on every input |
| Partition.LomutoSelectsStrictly | src/main/java/uk/co/robertgmoss/metric/indexes/VantagePointTree.java:59 | the stand-in meets the selection contract and splits strictly on every input |
| Partition.LomutoSelection | src/main/java/uk/co/robertgmoss/metric/indexes/VantagePointTree.java:59 | there is a selection function that both meets the contract and is what Select computes |
| Partition.Swap | src/main/java/uk/co/robertgmoss/metric/indexes/VantagePointTree.java:59 | the stand-in's exchange of two array positions leaves exactly the old contents with those positions swapped |
| Partition.Select | src/main/java/uk/co/robertgmoss/metric/indexes/VantagePointTree.java:59 | the in-place partition leaves the array and returns the index that the selection function gives for the old contents |
| VantagePoint.PreOrder | src/main/java/uk/co/robertgmoss/metric/indexes/VantagePointTree.java:80-87 | reference definition: the order `values()` lists the elements in, node then left then right; CollectValues and Values are proved to produce it |
| VantagePoint.SizeOf | src/main/java/uk/co/robertgmoss/metric/indexes/VantagePointTree.java:63-70 | reference definition: a node's cached size, 0 for an absent node; SizeCountsLeaves proves it equals the leaf count |
| VantagePoint.OccurrencesOfPreOrder | src/main/java/uk/co/robertgmoss/metric/indexes/VantagePointTree.java:80-87 | the pre-order listing holds each element exactly as often as the tree stores it |
| VantagePoint.SizeCountsLeaves | src/main/java/uk/co/robertgmoss/metric/indexes/VantagePointTree.java:51-74 | with sizes cached as construction caches them, a tree's size is its number of leaves |
| VantagePoint.LeavesBounds | src/main/java/uk/co/robertgmoss/metric/indexes/VantagePointTree.java:100-102 | a non-empty tree has at least one leaf and no more leaves than elements |
| VantagePoint.TwoElementsOneLeaf | src/main/java/uk/co/robertgmoss/metric/indexes/VantagePointTree.java:51-74 | a tree built from two elements reports size 1 |
| VantagePoint.BuildF | src/main/java/uk/co/robertgmoss/metric/indexes/VantagePointTree.java:51-74 | an empty range gives no node; otherwise the node's point is the last element of the range; a single element gives a leaf of size 1 |
| VantagePoint.BuildStep | src/main/java/uk/co/robertgmoss/metric/indexes/VantagePointTree.java:59-72 | a range of two or more gives a node holding its last element, and the sequence keeps its length |
| VantagePoint.BuildPermutes | src/main/java/uk/co/robertgmoss/metric/indexes/VantagePointTree.java:51-74 | construction permutes positions i to j only and leaves the vantage point at j in place |
| VantagePoint.BuildCount | src/main/java/uk/co/robertgmoss/metric/indexes/VantagePointTree.java:51-74 | the built tree holds each element exactly as often as positions i to j did |
| VantagePoint.BuildWithin | src/main/java/uk/co/robertgmoss/metric/indexes/VantagePointTree.java:62-65 | a subtree built from elements within mu of a point holds only such elements |
| VantagePoint.BuildAtLeast | src/main/java/uk/co/robertgmoss/metric/indexes/VantagePointTree.java:67-70 | a subtree built from elements at least mu from a point holds only such elements |
| VantagePoint.BuildBeyond | src/main/java/uk/co/robertgmoss/metric/indexes/VantagePointTree.java:67-70 | a subtree built from elements strictly farther than mu from a point holds only such elements |
| VantagePoint.BuildWellBuilt | src/main/java/uk/co/robertgmoss/metric/indexes/VantagePointTree.java:51-74 | every node of the built tree caches its leaf count, has the construction's shape, has a left side within mu and a right side at least mu |
| VantagePoint.BuildStrictlyPartitioned | src/main/java/uk/co/robertgmoss/metric/indexes/VantagePointTree.java:51-74 | under a selection that splits strictly, every node's right subtree is strictly farther than its mu |
| VantagePoint.Build | src/main/java/uk/co/robertgmoss/metric/indexes/VantagePointTree.java:51-74 | the array is left as, and the returned tree is, what BuildF describes for the old contents |
| VantagePoint.BuildWholePermutes | src/main/java/uk/co/robertgmoss/metric/indexes/VantagePointTree.java:47-49 | construction over the whole list leaves a permutation of it |
| VantagePoint.BuildWholeElements | src/main/java/uk/co/robertgmoss/metric/indexes/VantagePointTree.java:47-49 | construction over the whole list returns a tree holding exactly its elements |
| VantagePoint.BuildWhole | src/main/java/uk/co/robertgmoss/metric/indexes/VantagePointTree.java:47-49 | whole-list construction permutes the list, and returns a well-built tree that holds exactly the list's elements |
| VantagePoint.WholeConstruction | src/main/java/uk/co/robertgmoss/metric/indexes/VantagePointTree.java:47-49 | the partition's selection function meets the contract, so whole-list construction under it permutes the list and returns a well-built tree holding exactly the list's elements |
| VantagePoint.LomutoBuildsStrictly | src/main/java/uk/co/robertgmoss/metric/indexes/VantagePointTree.java:47-49 | under the stand-in selection, the tree built over a whole list meets QueryExact's hypothesis |
| VantagePoint.BuildAll | src/main/java/uk/co/robertgmoss/metric/indexes/VantagePointTree.java:43-49 | the array is permuted; the tree is well built, holds exactly the old elements, is empty iff the array is, and has the last element at its root |
| VantagePoint.BuildCopy | src/main/java/uk/co/robertgmoss/metric/indexes/VantagePointTree.java:93-96 | building from a fresh copy of a sequence gives a well-built tree holding exactly its elements, rooted at its last element |
| VantagePoint.CollectValues | src/main/java/uk/co/robertgmoss/metric/indexes/VantagePointTree.java:80-87 | the accumulator is extended by the tree's elements in pre-order |
| VantagePoint.Query | src/main/java/uk/co/robertgmoss/metric/indexes/VantagePointTree.java:110-122 | reference definition of the pruned descent: the node's point if within the threshold, then the left subtree if `d - threshold <= mu`, then the right if `d + threshold > mu`; Search is proved to produce it, and QuerySound, QueryWithinValues and QueryExact state what it means |
| VantagePoint.Search | src/main/java/uk/co/robertgmoss/metric/indexes/VantagePointTree.java:110-122 | the accumulator is extended by exactly what the pruned query reports below the node |
| VantagePoint.QuerySound | src/main/java/uk/co/robertgmoss/metric/indexes/VantagePointTree.java:113-116 | every reported element is within the threshold of the query |
| VantagePoint.QueryWithinValues | src/main/java/uk/co/robertgmoss/metric/indexes/VantagePointTree.java:110-122 | the query reports only stored elements, each at most as often as it is stored |
| VantagePoint.QueryNegativeThreshold | src/main/java/uk/co/robertgmoss/metric/indexes/VantagePointTree.java:114-116 | with non-negative distances, a negative threshold reports nothing |
| VantagePoint.ReportedOfQuery | src/main/java/uk/co/robertgmoss/metric/indexes/VantagePointTree.java:110-122 | the multiplicity of x in the query's output is the count the pruned descent reports for x |
| VantagePoint.QueryCount | src/main/java/uk/co/robertgmoss/metric/indexes/VantagePointTree.java:118-121 | for a metric and a strictly partitioned tree, x is reported as often as it is stored if within the threshold, else never |
| VantagePoint.LeftVisited | src/main/java/uk/co/robertgmoss/metric/indexes/VantagePointTree.java:118-119 | if a left subtree holds an answer, the left-hand test `d - threshold <= mu` holds |
| VantagePoint.RightVisited | src/main/java/uk/co/robertgmoss/metric/indexes/VantagePointTree.java:120-121 | if a strictly farther right subtree holds an answer, the right-hand test `d + threshold > mu` holds |
| VantagePoint.QueryExact | src/main/java/uk/co/robertgmoss/metric/indexes/VantagePointTree.java:110-122 | for a metric and a strictly partitioned tree, the query reports exactly the stored answers with their multiplicities |
| VantagePoint.BoundaryElementMissed | src/main/java/uk/co/robertgmoss/metric/indexes/VantagePointTree.java:118-121 | a metric tree meeting the construction's guarantees exists where a stored element within the threshold is not reported |
| VantagePoint.VantagePointTree.constructor | src/main/java/uk/co/robertgmoss/metric/indexes/VantagePointTree.java:47-49 | the caller's points are permuted in place; the tree is valid, holds exactly those points, is empty iff there are none, and is rooted at the last point |
| VantagePoint.VantagePointTree.Values | src/main/java/uk/co/robertgmoss/metric/indexes/VantagePointTree.java:76-78 | the stored elements in pre-order |
| VantagePoint.VantagePointTree.InsertAll | src/main/java/uk/co/robertgmoss/metric/indexes/VantagePointTree.java:93-98 | the rebuilt tree is valid, holds the old elements plus the new ones, is rooted at the last of them, and the method returns the same object |
| VantagePoint.VantagePointTree.Size | src/main/java/uk/co/robertgmoss/metric/indexes/VantagePointTree.java:100-102 | the size is the number of leaves: 0 for an empty tree, otherwise between 1 and the number of elements |
| VantagePoint.VantagePointTree.RangeQuery | src/main/java/uk/co/robertgmoss/metric/indexes/VantagePointTree.java:104-108 | the result is the pruned query's list: sound, within the stored elements, empty for an empty tree or a negative threshold, and exact for a metric with a strictly partitioned tree |
| BurkhardKeller.IndexOf | src/main/java/uk/co/robertgmoss/metric/indexes/BurkhardKellerTree.java:63 | the first entry with the key, or the list's length when no entry has it |
| BurkhardKeller.Get | src/main/java/uk/co/robertgmoss/metric/indexes/BurkhardKellerTree.java:63 | reference definition of `children.get(k)`: the child under k, or absent; PutGet and GetEntry state its map behaviour |
| BurkhardKeller.Put | src/main/java/uk/co/robertgmoss/metric/indexes/BurkhardKellerTree.java:64 | reference definition of `children.put(k, v)`: replaces the entry under k or adds one; PutGet and PutDistinct state its map behaviour |
| BurkhardKeller.PutGet | src/main/java/uk/co/robertgmoss/metric/indexes/BurkhardKellerTree.java:63-64 | after put(k, v), get gives v under k and what it gave before under every other key |
| BurkhardKeller.PutDistinct | src/main/java/uk/co/robertgmoss/metric/indexes/BurkhardKellerTree.java:64 | put keeps the keys distinct |
| BurkhardKeller.GetEntry | src/main/java/uk/co/robertgmoss/metric/indexes/BurkhardKellerTree.java:80-82 | looking up an entry's own key gives that entry's child; Search calls it to show its key-then-get loop visits every child |
| BurkhardKeller.UnderElements | src/main/java/uk/co/robertgmoss/metric/indexes/BurkhardKellerTree.java:62-64 | every element below a child keyed k is at distance k from the parent's point |
| BurkhardKeller.Insert | src/main/java/uk/co/robertgmoss/metric/indexes/BurkhardKellerTree.java:55-66 | the result is a node; an absent node becomes a leaf holding the point; a present node keeps its point |
| BurkhardKeller.InsertUpdatesOneChild | src/main/java/uk/co/robertgmoss/metric/indexes/BurkhardKellerTree.java:62-64 | only the child under the point's distance changes, becoming the insertion into the old child there |
| BurkhardKeller.InsertElements | src/main/java/uk/co/robertgmoss/metric/indexes/BurkhardKellerTree.java:55-66 | the tree gains exactly the inserted point |
| BurkhardKeller.InsertProper | src/main/java/uk/co/robertgmoss/metric/indexes/BurkhardKellerTree.java:55-66 | insertion keeps every child entry a real node and the keys distinct |
| BurkhardKeller.UnderInsert | src/main/java/uk/co/robertgmoss/metric/indexes/BurkhardKellerTree.java:62-64 | a point at distance k from p inserted below p's child keyed k keeps that child at distance k |
| BurkhardKeller.InsertKeyed | src/main/java/uk/co/robertgmoss/metric/indexes/BurkhardKellerTree.java:62-64 | insertion preserves the invariant that each child holds only elements at its key's distance |
| BurkhardKeller.Visits | src/main/java/uk/co/robertgmoss/metric/indexes/BurkhardKellerTree.java:81 | reference definition of the descent test: the child's key is within the radius of the query's distance to the node, on both sides |
| BurkhardKeller.Found | src/main/java/uk/co/robertgmoss/metric/indexes/BurkhardKellerTree.java:75-86 | reference definition of what the query reports below a node: the node's point if within the radius, plus what it reports below each visited child; Search is proved to produce it, and FoundBound and FoundExact state what it means |
| BurkhardKeller.FoundFrom | src/main/java/uk/co/robertgmoss/metric/indexes/BurkhardKellerTree.java:80-84 | reference definition of what the query reports below the children from a position on |
| BurkhardKeller.FoundBound | src/main/java/uk/co/robertgmoss/metric/indexes/BurkhardKellerTree.java:75-86 | an element is reported only if within the radius, and at most as often as it is stored |
| BurkhardKeller.FoundFromBound | src/main/java/uk/co/robertgmoss/metric/indexes/BurkhardKellerTree.java:80-84 | the same bound for the children from a position on |
| BurkhardKeller.Visited | src/main/java/uk/co/robertgmoss/metric/indexes/BurkhardKellerTree.java:81 | with symmetry and the triangle inequality, a child holding an answer passes the descent test |
| BurkhardKeller.FoundExact | src/main/java/uk/co/robertgmoss/metric/indexes/BurkhardKellerTree.java:75-86 | with symmetry and the triangle inequality, every stored answer is reported exactly as often as it is stored, and nothing else |
| BurkhardKeller.FoundFromExact | src/main/java/uk/co/robertgmoss/metric/indexes/BurkhardKellerTree.java:80-84 | the same exactness for the children from a position on |
| BurkhardKeller.Search | src/main/java/uk/co/robertgmoss/metric/indexes/BurkhardKellerTree.java:75-86 | the accumulator gains exactly what the query reports below the node, as a multiset |
| BurkhardKeller.BurkhardKellerTree.constructor | src/main/java/uk/co/robertgmoss/metric/indexes/BurkhardKellerTree.java:49-53 | inserting the points one by one gives a valid tree holding exactly those points, one node each, absent iff there are none |
| BurkhardKeller.BurkhardKellerTree.RangeQuery | src/main/java/uk/co/robertgmoss/metric/indexes/BurkhardKellerTree.java:68-73 | the result is what the query reports: sound and within the stored elements, and, with symmetry and the triangle inequality, exactly the stored answers with their multiplicities |

## Left out

- Serialization (`Serializable`, `serialVersionUID`) has no behaviour to model.
- The varargs overloads only wrap their arguments in a list and delegate, so they are left out. These are the `VantagePointTree(M...)` and `insertAll(M...)` overloads and the `BurkhardKellerTree(M...)` constructor. The vantage-point constructor takes an `array`, which covers the list view of a varargs array writing through just as well.
- The code of `uk.co.robertgmoss.metric.Partition.select` is not part of this model, and neither is `Element`.
  - `Partition.Select` stands in for `select`. It meets the contract construction relies on: elements stay in range, the range is split around the returned index, and ties are allowed on both sides.
  - The median that `select` aims at, and hence the balance of the tree, is not modelled.
  - The stand-in happens to put ties on the left (`LomutoBuildsStrictly`). Whether the real `select` does is not part of this model, so the tree class promises only the contract.
  - The distance is a parameter.
- `double` is modelled as `real`. NaN, infinities and rounding are not modelled, and neither is the `Double` key equality of the child `HashMap` (where `-0.0` differs from `0.0`).
- Java `int` overflow of sizes and indices is not modelled.
- The iteration order of a `HashMap` is not modelled. The association list is visited in list order, and Burkhard-Keller results are stated as multisets.
- Thread safety and concurrent use are not modelled.
- Tree nodes are values, not mutable objects. In the source no node is reachable from outside its tree, so updating a node in place and rebuilding a node value have the same effect. Aliasing between nodes is not captured.
- The `ArrayList` accumulators of the traversals are `seq` values that the methods extend and return.
- VantagePoint.VantagePointTree.RangeQuery: its completeness is stated only for a metric and a tree whose right subtrees are strictly farther than `mu`. For ties, the contract construction relies on does not make the query complete (`BoundaryElementMissed`).
- BurkhardKeller.BurkhardKellerTree.RangeQuery: it requires a present root. On a tree built from no points, the source dereferences a `null` root and throws `NullPointerException`, and that exception is not modelled.
- VantagePoint.VantagePointTree.Size: it requires the class invariant, because the size read from the root means the number of leaves only in a tree whose sizes were cached by construction.
