/**
 * The selection primitive the vantage-point tree builds with. Its real body is
 * not part of this model; what the tree relies on is its contract: it returns a
 * split index `p` inside the sub-range `[i, j]`, it only permutes that
 * sub-range, and afterwards every element at or left of `p` is no farther from
 * the reference than `points[p]` and every element right of `p` is no nearer.
 * The body below is one partition that meets this contract (Lomuto's scheme,
 * pivoting on the last element of the range); it does not aim for the median.
 */
module Partition {

  /** How often `x` occurs at positions `lo` up to (not including) `hi` of `s`. */
  ghost function Count<M(!new)>(s: seq<M>, lo: int, hi: int, x: M): nat
    requires 0 <= lo <= hi <= |s|
    decreases hi - lo
  {
    if lo == hi then 0 else Count(s, lo, hi - 1, x) + if s[hi - 1] == x then 1 else 0
  }

  /** Count is the multiplicity of `x` in the slice `s[lo..hi]`. */
  lemma {:induction false} CountIsSlice<M(!new)>(s: seq<M>, lo: int, hi: int, x: M)
    requires 0 <= lo <= hi <= |s|
    ensures Count(s, lo, hi, x) == multiset(s[lo..hi])[x]
    decreases hi - lo
  {
    if lo < hi {
      CountIsSlice(s, lo, hi - 1, x);
      assert s[lo..hi] == s[lo..hi - 1] + [s[hi - 1]];
    }
  }

  /** Counting over all positions gives the multiplicity in the whole sequence. */
  lemma CountWhole<M(!new)>(s: seq<M>, x: M)
    ensures Count(s, 0, |s|, x) == multiset(s)[x]
  {
    CountIsSlice(s, 0, |s|, x);
    assert s[0..|s|] == s;
  }

  /** A count splits at any position inside its range. */
  lemma {:induction false} CountSplit<M(!new)>(s: seq<M>, lo: int, mid: int, hi: int, x: M)
    requires 0 <= lo <= mid <= hi <= |s|
    ensures Count(s, lo, hi, x) == Count(s, lo, mid, x) + Count(s, mid, hi, x)
    decreases hi - mid
  {
    if mid < hi {
      CountSplit(s, lo, mid, hi - 1, x);
    }
  }

  /** Sequences that agree on a range count the same there. */
  lemma {:induction false} CountAgree<M(!new)>(a: seq<M>, b: seq<M>, lo: int, hi: int, x: M)
    requires 0 <= lo <= hi <= |a| && hi <= |b|
    requires forall k | lo <= k < hi :: a[k] == b[k]
    ensures Count(a, lo, hi, x) == Count(b, lo, hi, x)
    decreases hi - lo
  {
    if lo < hi {
      CountAgree(a, b, lo, hi - 1, x);
    }
  }

  /** An element counted in a range sits at some position inside it. */
  lemma {:induction false} CountMember<M(!new)>(s: seq<M>, lo: int, hi: int, x: M) returns (k: int)
    requires 0 <= lo <= hi <= |s|
    requires Count(s, lo, hi, x) > 0
    ensures lo <= k < hi && s[k] == x
    decreases hi - lo
  {
    if s[hi - 1] == x {
      k := hi - 1;
    } else {
      k := CountMember(s, lo, hi - 1, x);
    }
  }

  /** The element at a position inside a range is counted there. */
  lemma CountPositive<M(!new)>(s: seq<M>, lo: int, hi: int, k: int)
    requires 0 <= lo <= k < hi <= |s|
    ensures Count(s, lo, hi, s[k]) > 0
  {
    CountSplit(s, lo, k + 1, hi, s[k]);
  }

  /** Positions `lo` up to `hi` of `a` are a permutation of those of `b`, and nothing outside them differs. */
  ghost predicate PermutesRange<M(!new)>(a: seq<M>, b: seq<M>, lo: int, hi: int)
    requires 0 <= lo <= hi <= |a| == |b|
  {
    && (forall k | 0 <= k < lo :: a[k] == b[k])
    && (forall k | hi <= k < |a| :: a[k] == b[k])
    && (forall x :: Count(a, lo, hi, x) == Count(b, lo, hi, x))
  }

  /** Count for equal bounds written two ways. */
  lemma CountUpTo<M(!new)>(s: seq<M>, lo: int, hi: int, hi': int, x: M)
    requires 0 <= lo <= hi <= |s| && hi == hi'
    ensures Count(s, lo, hi, x) == Count(s, lo, hi', x)
  {
  }

  /** PermutesRange for equal bounds written two ways (such as `j - 1 + 1` and `j`). */
  lemma PermutesRangeUpTo<M(!new)>(a: seq<M>, b: seq<M>, lo: int, hi: int, hi': int)
    requires 0 <= lo <= hi <= |a| == |b| && hi == hi'
    requires PermutesRange(a, b, lo, hi)
    ensures PermutesRange(a, b, lo, hi')
  {
  }

  lemma PermutesRangeTransitive<M(!new)>(a: seq<M>, b: seq<M>, c: seq<M>, lo: int, hi: int)
    requires 0 <= lo <= hi <= |a| == |b| == |c|
    requires PermutesRange(a, b, lo, hi) && PermutesRange(b, c, lo, hi)
    ensures PermutesRange(a, c, lo, hi)
  {
  }

  /** A permutation of a range is a permutation of every range that contains it. */
  lemma PermutesRangeWiden<M(!new)>(a: seq<M>, b: seq<M>, i: int, j: int, lo: int, hi: int)
    requires 0 <= lo <= i <= j <= hi <= |a| == |b|
    requires PermutesRange(a, b, i, j)
    ensures PermutesRange(a, b, lo, hi)
  {
    forall x ensures Count(a, lo, hi, x) == Count(b, lo, hi, x) {
      CountSplit(a, lo, i, hi, x);
      CountSplit(a, i, j, hi, x);
      CountSplit(b, lo, i, hi, x);
      CountSplit(b, i, j, hi, x);
      CountAgree(a, b, lo, i, x);
      CountAgree(a, b, j, hi, x);
    }
  }

  /** A permutation of a range keeps every property that all its elements have. */
  lemma PermutesRangeKeeps<M(!new)>(a: seq<M>, b: seq<M>, lo: int, hi: int, P: M -> bool)
    requires 0 <= lo <= hi <= |a| == |b|
    requires PermutesRange(a, b, lo, hi)
    requires forall k | lo <= k < hi :: P(b[k])
    ensures forall k | lo <= k < hi :: P(a[k])
  {
    forall k | lo <= k < hi ensures P(a[k]) {
      CountPositive(a, lo, hi, k);
      var m := CountMember(b, lo, hi, a[k]);
    }
  }

  /**
   * The three permutations of a vantage-point build step compose: selection on
   * `[i, j)`, then the left build on `[i, p+1)`, then the right one on
   * `[p+1, j)` permute `[i, j+1)` and leave position `j` alone.
   */
  lemma ComposeSplit<M(!new)>(initial: seq<M>, selected: seq<M>, built: seq<M>, final: seq<M>, i: int, j: int, p: int)
    requires 0 <= i <= p < j < |initial| == |selected| == |built| == |final|
    requires PermutesRange(selected, initial, i, j)
    requires PermutesRange(built, selected, i, p + 1)
    requires PermutesRange(final, built, p + 1, j)
    ensures PermutesRange(final, initial, i, j + 1)
    ensures final[j] == initial[j]
  {
    forall x ensures Count(final, i, j, x) == Count(initial, i, j, x) {
      CountAgree(final, built, i, p + 1, x);
      CountAgree(built, selected, p + 1, j, x);
      CountSplit(final, i, p + 1, j, x);
      CountSplit(selected, i, p + 1, j, x);
    }
    PermutesRangeWiden(final, initial, i, j, i, j + 1);
  }

  /** Exchanging two positions inside `[lo, hi)` leaves the elements of that slice as they were. */
  lemma SwapSlice<M(!new)>(a: seq<M>, x: int, y: int, lo: int, hi: int)
    requires 0 <= lo <= x < hi <= |a| && lo <= y < hi
    ensures multiset(a[x := a[y]][y := a[x]][lo..hi]) == multiset(a[lo..hi])
  {
    assert a[x := a[y]][y := a[x]][lo..hi] == a[lo..hi][x - lo := a[y]][y - lo := a[x]];
  }

  /** Exchanging two positions inside `[lo, hi)` permutes that range. */
  lemma SwapPermutesRange<M(!new)>(a: seq<M>, x: int, y: int, lo: int, hi: int)
    requires 0 <= lo <= x < hi <= |a| && lo <= y < hi
    ensures PermutesRange(a[x := a[y]][y := a[x]], a, lo, hi)
  {
    forall e ensures Count(a[x := a[y]][y := a[x]], lo, hi, e) == Count(a, lo, hi, e) {
      SwapSlice(a, x, y, lo, hi);
      CountIsSlice(a, lo, hi, e);
      CountIsSlice(a[x := a[y]][y := a[x]], lo, hi, e);
    }
  }

  /** `s` with positions `x` and `y` exchanged. */
  function Swapped<M(!new)>(s: seq<M>, x: int, y: int): (r: seq<M>)
    requires 0 <= x < |s| && 0 <= y < |s|
    ensures |r| == |s| && r[x] == s[y] && r[y] == s[x]
    ensures forall m :: 0 <= m < |s| && m != x && m != y ==> r[m] == s[m]
  {
    s[x := s[y]][y := s[x]]
  }

  /**
   * The scan of Lomuto's partition over positions `i` up to `k`: the sequence
   * it leaves and the boundary `t` below which it has gathered the elements
   * no farther from `reference` than `pivot`.
   */
  function Scan<M(!new)>(dist: (M, M) -> real, reference: M, pivot: real, s: seq<M>, i: int, k: int): (r: (seq<M>, int))
    requires 0 <= i <= k <= |s|
    ensures |r.0| == |s| && i <= r.1 <= k
    decreases k - i
  {
    if k == i then (s, i)
    else
      var (a, t) := Scan(dist, reference, pivot, s, i, k - 1);
      if dist(reference, a[k - 1]) <= pivot then (Swapped(a, t, k - 1), t + 1) else (a, t)
  }

  /** What the selection primitive computes on `s` over `[i, j]`: the permuted sequence and the split index. */
  function SelectF<M(!new)>(dist: (M, M) -> real, reference: M, s: seq<M>, i: int, j: int): (r: (seq<M>, int))
    requires 0 <= i <= j < |s|
    ensures |r.0| == |s| && i <= r.1 <= j
  {
    var (a, t) := Scan(dist, reference, dist(reference, s[j]), s, i, j);
    (Swapped(a, t, j), t)
  }

  /** The scan only permutes the positions it has visited. */
  lemma {:induction false} ScanPermutes<M(!new)>(dist: (M, M) -> real, reference: M, pivot: real, s: seq<M>, i: int, k: int)
    requires 0 <= i <= k <= |s|
    ensures PermutesRange(Scan(dist, reference, pivot, s, i, k).0, s, i, k)
    decreases k - i
  {
    if k > i {
      ScanPermutes(dist, reference, pivot, s, i, k - 1);
      var (a, t) := Scan(dist, reference, pivot, s, i, k - 1);
      PermutesRangeWiden(a, s, i, k - 1, i, k);
      if dist(reference, a[k - 1]) <= pivot {
        SwapPermutesRange(a, t, k - 1, i, k);
        PermutesRangeTransitive(Swapped(a, t, k - 1), a, s, i, k);
      }
    }
  }

  /** Every element of `a[lo..hi]` is no farther from `reference` than `pivot`. */
  ghost predicate NoFarther<M(!new)>(dist: (M, M) -> real, reference: M, pivot: real, a: seq<M>, lo: int, hi: int)
    requires 0 <= lo <= hi <= |a|
  {
    forall m | lo <= m < hi :: dist(reference, a[m]) <= pivot
  }

  /** Every element of `a[lo..hi]` is strictly farther from `reference` than `pivot`. */
  ghost predicate Farther<M(!new)>(dist: (M, M) -> real, reference: M, pivot: real, a: seq<M>, lo: int, hi: int)
    requires 0 <= lo <= hi <= |a|
  {
    forall m | lo <= m < hi :: dist(reference, a[m]) > pivot
  }

  /** The scan splits the positions it has visited at its boundary: no farther than `pivot` below, farther above. */
  lemma {:induction false} ScanSplits<M(!new)>(dist: (M, M) -> real, reference: M, pivot: real, s: seq<M>, i: int, k: int)
    requires 0 <= i <= k <= |s|
    ensures NoFarther(dist, reference, pivot, Scan(dist, reference, pivot, s, i, k).0, i, Scan(dist, reference, pivot, s, i, k).1)
    ensures Farther(dist, reference, pivot, Scan(dist, reference, pivot, s, i, k).0, Scan(dist, reference, pivot, s, i, k).1, k)
    decreases k - i
  {
    if k > i {
      ScanSplits(dist, reference, pivot, s, i, k - 1);
      var (a, t) := Scan(dist, reference, pivot, s, i, k - 1);
      if dist(reference, a[k - 1]) <= pivot {
        var b := Swapped(a, t, k - 1);
        assert Scan(dist, reference, pivot, s, i, k) == (b, t + 1);
        assert forall m | t + 1 <= m < k :: b[m] == (if m == k - 1 then a[t] else a[m]);
      } else {
        assert Scan(dist, reference, pivot, s, i, k) == (a, t);
      }
    }
  }

  /**
   * `p` splits `a[i..j]` around `a[p]`: every element at or left of `p` is no
   * farther from `reference` than `a[p]`, every element right of it no nearer.
   */
  ghost predicate SplitAt<M(!new)>(dist: (M, M) -> real, reference: M, a: seq<M>, i: int, p: int, j: int)
    requires 0 <= i <= p <= j < |a|
  {
    && (forall k | i <= k <= p :: dist(reference, a[k]) <= dist(reference, a[p]))
    && (forall k | p < k <= j :: dist(reference, a[k]) >= dist(reference, a[p]))
  }

  /** The selection primitive's contract: it permutes `[i, j]` only and splits it at the index it returns. */
  lemma SelectSplits<M(!new)>(dist: (M, M) -> real, reference: M, s: seq<M>, i: int, j: int)
    requires 0 <= i <= j < |s|
    ensures PermutesRange(SelectF(dist, reference, s, i, j).0, s, i, j + 1)
    ensures SplitAt(dist, reference, SelectF(dist, reference, s, i, j).0, i, SelectF(dist, reference, s, i, j).1, j)
  {
    var pivot := dist(reference, s[j]);
    ScanPermutes(dist, reference, pivot, s, i, j);
    ScanSplits(dist, reference, pivot, s, i, j);
    var (a, t) := Scan(dist, reference, pivot, s, i, j);
    assert a[j] == s[j];
    PermutesRangeWiden(a, s, i, j, i, j + 1);
    var b := Swapped(a, t, j);
    SwapPermutesRange(a, t, j, i, j + 1);
    PermutesRangeTransitive(b, a, s, i, j + 1);
    assert dist(reference, b[t]) == pivot;
    assert forall k | t < k <= j :: b[k] == (if k == j then a[t] else a[k]);
  }

  /** `p` splits `a[i..j]` strictly: every element right of `p` is farther from `reference` than `a[p]`. */
  ghost predicate SplitStrictlyAt<M(!new)>(dist: (M, M) -> real, reference: M, a: seq<M>, i: int, p: int, j: int)
    requires 0 <= i <= p <= j < |a|
  {
    forall k | p < k <= j :: dist(reference, a[k]) > dist(reference, a[p])
  }

  /** Lomuto's partition puts every tie with the split element on its left. */
  lemma SelectSplitsStrictly<M(!new)>(dist: (M, M) -> real, reference: M, s: seq<M>, i: int, j: int)
    requires 0 <= i <= j < |s|
    ensures SplitStrictlyAt(dist, reference, SelectF(dist, reference, s, i, j).0, i, SelectF(dist, reference, s, i, j).1, j)
  {
    var pivot := dist(reference, s[j]);
    ScanPermutes(dist, reference, pivot, s, i, j);
    ScanSplits(dist, reference, pivot, s, i, j);
    var (a, t) := Scan(dist, reference, pivot, s, i, j);
    assert a[j] == s[j];
    var b := Swapped(a, t, j);
    assert dist(reference, b[t]) == pivot;
    assert forall k | t < k <= j :: b[k] == (if k == j then a[t] else a[k]);
  }

  /**
   * A selection function: for a reference point, a sequence and a range
   * `[i, j]`, the sequence the selection primitive leaves and the split index
   * it returns.
   */
  type Selection<!M> = (M, seq<M>, int, int) -> (seq<M>, int)

  /** The result of a selection, as a term that does not depend on the heap. */
  ghost function Apply<M(!new)>(select: Selection<M>, reference: M, s: seq<M>, i: int, j: int): (seq<M>, int)
  {
    select(reference, s, i, j)
  }

  /** `select` keeps the length of the sequence and returns a split index inside the range. */
  ghost predicate Bounded<M(!new)>(select: Selection<M>)
  {
    forall reference, s, i, j | 0 <= i <= j < |s| ::
      |select(reference, s, i, j).0| == |s| && i <= select(reference, s, i, j).1 <= j
  }

  /** The selection contract on one input: permute `[i, j]` only, and split it at the returned index. */
  ghost predicate SelectsAt<M(!new)>(dist: (M, M) -> real, select: Selection<M>, reference: M, s: seq<M>, i: int, j: int)
    requires Bounded(select) && 0 <= i <= j < |s|
  {
    && PermutesRange(select(reference, s, i, j).0, s, i, j + 1)
    && SplitAt(dist, reference, select(reference, s, i, j).0, i, select(reference, s, i, j).1, j)
  }

  /** `select` meets the selection contract on every input. */
  ghost predicate Selects<M(!new)>(dist: (M, M) -> real, select: Selection<M>)
  {
    Bounded(select) && forall reference, s, i, j | 0 <= i <= j < |s| :: SelectsAt(dist, select, reference, s, i, j)
  }

  /** The strict split on one input. */
  ghost predicate StrictlyAt<M(!new)>(dist: (M, M) -> real, select: Selection<M>, reference: M, s: seq<M>, i: int, j: int)
    requires Bounded(select) && 0 <= i <= j < |s|
  {
    SplitStrictlyAt(dist, reference, select(reference, s, i, j).0, i, select(reference, s, i, j).1, j)
  }

  /** `select` meets the selection contract and splits strictly on every input. */
  ghost predicate SelectsStrictly<M(!new)>(dist: (M, M) -> real, select: Selection<M>)
  {
    Selects(dist, select) && forall reference, s, i, j | 0 <= i <= j < |s| :: StrictlyAt(dist, select, reference, s, i, j)
  }

  /** `select` computes what Select does, on every input Select accepts. */
  ghost predicate Computes<M(!new)>(dist: (M, M) -> real, select: Selection<M>)
  {
    forall reference, s, i, j {:trigger SelectF(dist, reference, s, i, j)} | 0 <= i <= j < |s| ::
      select(reference, s, i, j) == SelectF(dist, reference, s, i, j)
  }

  /** SelectF as a selection function, extended to inputs outside its range by leaving them alone. */
  function Lomuto<M(!new)>(dist: (M, M) -> real): (select: Selection<M>)
    ensures Bounded(select) && Computes(dist, select)
  {
    (reference: M, s: seq<M>, i: int, j: int) => if 0 <= i <= j < |s| then SelectF(dist, reference, s, i, j) else (s, i)
  }

  /** Lomuto's partition meets the selection contract. */
  lemma LomutoSelects<M(!new)>(dist: (M, M) -> real)
    ensures Selects(dist, Lomuto(dist))
  {
    var select := Lomuto(dist);
    forall reference, s, i, j | 0 <= i <= j < |s| ensures SelectsAt(dist, select, reference, s, i, j) {
      SelectSplits(dist, reference, s, i, j);
    }
  }

  /** Lomuto's partition also splits strictly on every input. */
  lemma LomutoSelectsStrictly<M(!new)>(dist: (M, M) -> real)
    ensures SelectsStrictly(dist, Lomuto(dist))
  {
    var select := Lomuto(dist);
    LomutoSelects(dist);
    forall reference, s, i, j | 0 <= i <= j < |s| ensures StrictlyAt(dist, select, reference, s, i, j) {
      SelectSplitsStrictly(dist, reference, s, i, j);
    }
  }

  /** The selection function Select computes, known by its contract. */
  lemma LomutoSelection<M(!new)>(dist: (M, M) -> real) returns (select: Selection<M>)
    ensures Selects(dist, select) && Computes(dist, select)
  {
    select := Lomuto(dist);
    LomutoSelects(dist);
  }

  /** Exchanges two positions of `points`. */
  method Swap<M(!new)>(points: array<M>, x: int, y: int)
    requires 0 <= x < points.Length && 0 <= y < points.Length
    modifies points
    ensures points[..] == Swapped(old(points[..]), x, y)
  {
    points[x], points[y] := points[y], points[x];
  }

  /**
   * Lomuto's partition of `points[i..j]` in place, pivoting on `points[j]`;
   * `select` names the selection function it computes.
   */
  method Select<M(!new)>(dist: (M, M) -> real, ghost select: Selection<M>, reference: M, points: array<M>, i: int, j: int)
    returns (p: int)
    requires Computes(dist, select)
    requires 0 <= i <= j < points.Length
    modifies points
    ensures (points[..], p) == Apply(select, reference, old(points[..]), i, j)
  {
    ghost var initial := points[..];
    var pivot := dist(reference, points[j]);
    var s := i;
    for k := i to j
      invariant (points[..], s) == Scan(dist, reference, pivot, initial, i, k)
    {
      if dist(reference, points[k]) <= pivot {
        Swap(points, s, k);
        s := s + 1;
      }
    }
    Swap(points, s, j);
    p := s;
    assert (points[..], p) == SelectF(dist, reference, initial, i, j);
  }
}
