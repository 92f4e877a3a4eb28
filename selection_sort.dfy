/**
A model of an in-place, comparator-driven selection sort over an array.

A comparator `cmp` ranks `x` ahead of `y` when `cmp(x, y) > 0`. Each pass of the
sort picks, among the positions not yet placed, the first element the comparator
ranks highest and swaps it into the next position. The loops of the method
`SelectionSort` are mirrored by the functions `SelectFrom`, `Select` and
`SortFrom`, about which the ordering, permutation and tie-break properties are
proved as lemmas.
*/
module Sorting {

  // ---------------------------------------------------------------------------
  // Comparators

  /** `cmp(x, y) > 0` exactly when `cmp(y, x) < 0`: the comparator's sign flips with its arguments. */
  ghost predicate SignAntisymmetric<T(!new)>(cmp: (T, T) -> int) {
    forall x, y :: cmp(x, y) > 0 <==> cmp(y, x) < 0
  }

  /** `x` is ranked no higher than `y`. */
  ghost predicate RankedAtMost<T>(cmp: (T, T) -> int, x: T, y: T) {
    cmp(x, y) <= 0
  }

  /**
  "Ranked no higher than" is transitive. The quantifier is stated over `RankedAtMost`
  so that it is instantiated only where a proof names that relation.
  */
  ghost predicate Transitive<T(!new)>(cmp: (T, T) -> int) {
    forall x, y, z :: RankedAtMost(cmp, x, y) && RankedAtMost(cmp, y, z) ==> RankedAtMost(cmp, x, z)
  }

  /**
  The comparator induces a total preorder. Totality (`cmp(x, y) <= 0 || cmp(y, x) <= 0`)
  and reflexivity (`cmp(x, x) == 0`) follow from sign antisymmetry.
  */
  ghost predicate IsTotalPreorder<T(!new)>(cmp: (T, T) -> int) {
    SignAntisymmetric(cmp) && Transitive(cmp)
  }

  /** No later element is ranked above an earlier one. */
  ghost predicate Ordered<T(!new)>(cmp: (T, T) -> int, s: seq<T>) {
    forall p, q {:trigger cmp(s[q], s[p])} :: 0 <= p < q < |s| ==> cmp(s[q], s[p]) <= 0
  }

  /** No element is ranked above its left neighbour. */
  ghost predicate AdjacentOrdered<T(!new)>(cmp: (T, T) -> int, s: seq<T>) {
    forall k {:trigger cmp(s[k], s[k - 1])} :: 0 < k < |s| ==> cmp(s[k], s[k - 1]) <= 0
  }

  /**
  The state after `i` passes of the outer loop: every position before `i` is ranked
  at least as high as every position after it, so `s[..i]` is ordered and holds
  the `i` highest-ranked elements.
  */
  ghost predicate SortedUpTo<T(!new)>(cmp: (T, T) -> int, s: seq<T>, i: nat) {
    forall p, q {:trigger cmp(s[q], s[p])} :: 0 <= p < q < |s| && p < i ==> cmp(s[q], s[p]) <= 0
  }

  /**
  The state of the inner loop of pass `i` once it has looked at `s[i..j]`: `sel` is
  the FIRST index of an element ranked highest among them. Elements before `sel`
  are ranked strictly lower, elements from `sel` on no higher.
  */
  ghost predicate FirstBest<T(!new)>(cmp: (T, T) -> int, s: seq<T>, i: nat, j: nat, sel: nat) {
    && i <= sel < j <= |s|
    && (forall k {:trigger cmp(s[k], s[sel])} :: i <= k < sel ==> cmp(s[k], s[sel]) < 0)
    && (forall k {:trigger cmp(s[k], s[sel])} :: sel <= k < j ==> cmp(s[k], s[sel]) <= 0)
  }

  lemma StrictlyBelow<T(!new)>(cmp: (T, T) -> int, x: T, y: T, z: T)
    requires IsTotalPreorder(cmp)
    requires cmp(x, y) <= 0 && cmp(y, z) < 0
    ensures cmp(x, z) < 0
  {
    assert cmp(z, x) > 0 <==> cmp(x, z) < 0;
    assert RankedAtMost(cmp, z, x) && RankedAtMost(cmp, x, y) ==> RankedAtMost(cmp, z, y);
    assert cmp(z, y) > 0;
  }

  /** Before the inner scan of pass `i`, position `i` is the only candidate. */
  lemma FirstBestStart<T(!new)>(cmp: (T, T) -> int, s: seq<T>, i: nat)
    requires IsTotalPreorder(cmp) && i < |s|
    ensures FirstBest(cmp, s, i, i + 1, i)
  {
  }

  /** One step of the inner scan keeps `FirstBest`; the test is strictly `> 0`, so ties keep the earlier index. */
  lemma FirstBestStep<T(!new)>(cmp: (T, T) -> int, s: seq<T>, i: nat, j: nat, sel: nat)
    requires IsTotalPreorder(cmp)
    requires FirstBest(cmp, s, i, j, sel) && j < |s|
    ensures FirstBest(cmp, s, i, j + 1, if cmp(s[j], s[sel]) > 0 then j else sel)
  {
    if cmp(s[j], s[sel]) > 0 {
      assert cmp(s[sel], s[j]) < 0;
      forall k | i <= k < j
        ensures cmp(s[k], s[j]) < 0
      {
        StrictlyBelow(cmp, s[k], s[sel], s[j]);
      }
    }
  }

  /** A `FirstBest` index is determined by the scanned range. */
  lemma FirstBestUnique<T(!new)>(cmp: (T, T) -> int, s: seq<T>, i: nat, j: nat, r1: nat, r2: nat)
    requires IsTotalPreorder(cmp)
    requires FirstBest(cmp, s, i, j, r1) && FirstBest(cmp, s, i, j, r2)
    ensures r1 == r2
  {
    assert cmp(s[r1], s[r2]) > 0 <==> cmp(s[r2], s[r1]) < 0;
  }

  // ---------------------------------------------------------------------------
  // The two preset comparators over integers

  /** Kotlin's `Int.compareTo`: -1, 0 or 1 as `x` is below, equal to or above `y`. */
  function CompareTo(x: int, y: int): (r: int)
    ensures -1 <= r <= 1
    ensures r < 0 <==> x < y
    ensures r == 0 <==> x == y
    ensures r > 0 <==> x > y
  {
    if x < y then -1 else if x == y then 0 else 1
  }

  /** `o2.compareTo(o1)`: ranks the smaller integer higher, so each pass selects the minimum. */
  function AscendingComparator(o1: int, o2: int): (r: int)
    ensures r > 0 <==> o1 < o2
    ensures r < 0 <==> o1 > o2
  {
    CompareTo(o2, o1)
  }

  /** `o1.compareTo(o2)`: ranks the larger integer higher, so each pass selects the maximum. */
  function DescendingComparator(o1: int, o2: int): (r: int)
    ensures r > 0 <==> o1 > o2
    ensures r < 0 <==> o1 < o2
  {
    CompareTo(o1, o2)
  }

  lemma AscendingIsTotalPreorder()
    ensures IsTotalPreorder(AscendingComparator)
  {
  }

  lemma DescendingIsTotalPreorder()
    ensures IsTotalPreorder(DescendingComparator)
  {
  }

  /** Ordered by `AscendingComparator` means ascending order. */
  lemma AscendingOrderedIsNondecreasing(s: seq<int>)
    ensures Ordered(AscendingComparator, s) <==> forall p, q :: 0 <= p < q < |s| ==> s[p] <= s[q]
  {
    forall p, q | 0 <= p < q < |s|
      ensures AscendingComparator(s[q], s[p]) <= 0 <==> s[p] <= s[q]
    {
    }
  }

  /** Ordered by `DescendingComparator` means descending order. */
  lemma DescendingOrderedIsNonincreasing(s: seq<int>)
    ensures Ordered(DescendingComparator, s) <==> forall p, q :: 0 <= p < q < |s| ==> s[p] >= s[q]
  {
    forall p, q | 0 <= p < q < |s|
      ensures DescendingComparator(s[q], s[p]) <= 0 <==> s[p] >= s[q]
    {
    }
  }

  /** For a transitive comparator, ordering every pair is the same as ordering every adjacent pair. */
  lemma OrderedIffAdjacentOrdered<T(!new)>(cmp: (T, T) -> int, s: seq<T>)
    requires Transitive(cmp)
    ensures Ordered(cmp, s) <==> AdjacentOrdered(cmp, s)
  {
    if AdjacentOrdered(cmp, s) {
      forall p, q | 0 <= p < q < |s|
        ensures cmp(s[q], s[p]) <= 0
      {
        AdjacentReaches(cmp, s, p, q);
      }
    }
  }

  lemma {:induction false} AdjacentReaches<T(!new)>(cmp: (T, T) -> int, s: seq<T>, p: nat, q: nat)
    requires Transitive(cmp) && AdjacentOrdered(cmp, s)
    requires p < q < |s|
    ensures cmp(s[q], s[p]) <= 0
    decreases q - p
  {
    if p + 1 < q {
      AdjacentReaches(cmp, s, p, q - 1);
      assert RankedAtMost(cmp, s[q], s[q - 1]) && RankedAtMost(cmp, s[q - 1], s[p]);
    } else {
      assert cmp(s[q], s[q - 1]) <= 0 && q - 1 == p;
    }
  }

  // ---------------------------------------------------------------------------
  // Swapping two positions

  /** `s` with the elements at `x` and `y` exchanged. */
  function Swapped<T>(s: seq<T>, x: nat, y: nat): (r: seq<T>)
    requires x < |s| && y < |s|
    ensures |r| == |s| && r[x] == s[y] && r[y] == s[x]
    ensures forall k :: 0 <= k < |s| && k != x && k != y ==> r[k] == s[k]
  {
    s[x := s[y]][y := s[x]]
  }

  /** Swapping is a permutation, and swapping a position with itself changes nothing. */
  lemma SwappedIsPermutation<T>(s: seq<T>, x: nat, y: nat)
    requires x < |s| && y < |s|
    ensures multiset(Swapped(s, x, y)) == multiset(s)
    ensures x == y ==> Swapped(s, x, y) == s
  {
  }

  /** Exchanges `a[indexOne]` and `a[indexTwo]` through a temporary. */
  method Swap<T>(a: array<T>, indexOne: int, indexTwo: int)
    requires 0 <= indexOne < a.Length && 0 <= indexTwo < a.Length
    modifies a
    ensures a[..] == Swapped(old(a[..]), indexOne, indexTwo)
  {
    var temp := a[indexOne];
    a[indexOne] := a[indexTwo];
    a[indexTwo] := temp;
  }

  // ---------------------------------------------------------------------------
  // The sort, as functions on sequences

  /**
  The inner scan of a pass, from index `j` on, with `sel` the index selected so far:
  `j` replaces `sel` only when the comparator ranks `s[j]` strictly higher.
  */
  function SelectFrom<T>(cmp: (T, T) -> int, s: seq<T>, j: nat, sel: nat): (r: nat)
    requires sel < j <= |s|
    ensures r == sel || j <= r < |s|
    decreases |s| - j
  {
    if j == |s| then sel
    else SelectFrom(cmp, s, j + 1, if cmp(s[j], s[sel]) > 0 then j else sel)
  }

  /** The index selected by pass `i`. */
  function Select<T>(cmp: (T, T) -> int, s: seq<T>, i: nat): (r: nat)
    requires i < |s|
    ensures i <= r < |s|
  {
    SelectFrom(cmp, s, i + 1, i)
  }

  /** Passes `i`, `i + 1`, ... of the outer loop applied to `s`. */
  function SortFrom<T>(cmp: (T, T) -> int, s: seq<T>, i: nat): (r: seq<T>)
    requires i <= |s|
    ensures |r| == |s|
    decreases |s| - i
  {
    if i == |s| then s
    else SortFrom(cmp, Swapped(s, Select(cmp, s, i), i), i + 1)
  }

  /** What the sort leaves in an array that held `s`. */
  function SelectionSorted<T>(cmp: (T, T) -> int, s: seq<T>): (r: seq<T>)
    ensures |r| == |s|
  {
    if |s| <= 1 then s else SortFrom(cmp, s, 0)
  }

  /** The comparator calls made by the first `i` passes over `n` elements: pass `k` makes `n - (k + 1)`. */
  function PassCalls(n: nat, i: nat): nat
    requires i <= n
  {
    if i == 0 then 0 else PassCalls(n, i - 1) + (n - i)
  }

  /** Twice the calls of the first `i` passes is i(2n - i - 1). */
  lemma {:induction false} PassCallsClosedForm(n: nat, i: nat)
    requires i <= n
    ensures 2 * PassCalls(n, i) == i * (2 * n - i - 1)
  {
    if i > 0 {
      PassCallsClosedForm(n, i - 1);
      assert (i - 1) * (2 * n - i) + 2 * (n - i) == i * (2 * n - i - 1);
    }
  }

  /** All `n` passes make n(n - 1)/2 calls. */
  lemma ComparisonCountClosedForm(n: nat)
    ensures PassCalls(n, n) == n * (n - 1) / 2
  {
    PassCallsClosedForm(n, n);
  }

  // ---------------------------------------------------------------------------
  // Properties of the functions

  lemma {:induction false} SelectFromFirstBest<T(!new)>(cmp: (T, T) -> int, s: seq<T>, i: nat, j: nat, sel: nat)
    requires IsTotalPreorder(cmp) && FirstBest(cmp, s, i, j, sel)
    ensures FirstBest(cmp, s, i, |s|, SelectFrom(cmp, s, j, sel))
    decreases |s| - j
  {
    if j < |s| {
      var next := if cmp(s[j], s[sel]) > 0 then j else sel;
      FirstBestStep(cmp, s, i, j, sel);
      SelectFromFirstBest(cmp, s, i, j + 1, next);
    }
  }

  /**
  Pass `i` selects exactly the first index of an element ranked highest in `s[i..]`:
  a later element tied with it never replaces it.
  */
  lemma SelectIsFirstBest<T(!new)>(cmp: (T, T) -> int, s: seq<T>, i: nat, r: nat)
    requires IsTotalPreorder(cmp) && i <= r < |s|
    ensures Select(cmp, s, i) == r <==> FirstBest(cmp, s, i, |s|, r)
  {
    FirstBestStart(cmp, s, i);
    SelectFromFirstBest(cmp, s, i, i + 1, i);
    if FirstBest(cmp, s, i, |s|, r) {
      FirstBestUnique(cmp, s, i, |s|, r, Select(cmp, s, i));
    }
  }

  /** Swapping the pass's best element into position `i` extends the sorted prefix by one. */
  lemma PlaceBest<T(!new)>(cmp: (T, T) -> int, s: seq<T>, i: nat, sel: nat)
    requires i < |s| && SortedUpTo(cmp, s, i) && FirstBest(cmp, s, i, |s|, sel)
    ensures SortedUpTo(cmp, Swapped(s, sel, i), i + 1)
  {
  }

  lemma {:induction false} SortFromIsPermutation<T>(cmp: (T, T) -> int, s: seq<T>, i: nat)
    requires i <= |s|
    ensures multiset(SortFrom(cmp, s, i)) == multiset(s)
    decreases |s| - i
  {
    if i < |s| {
      var sel := Select(cmp, s, i);
      SwappedIsPermutation(s, sel, i);
      SortFromIsPermutation(cmp, Swapped(s, sel, i), i + 1);
    }
  }

  lemma {:induction false} SortFromOrders<T(!new)>(cmp: (T, T) -> int, s: seq<T>, i: nat)
    requires IsTotalPreorder(cmp) && i <= |s| && SortedUpTo(cmp, s, i)
    ensures Ordered(cmp, SortFrom(cmp, s, i))
    decreases |s| - i
  {
    if i < |s| {
      var sel := Select(cmp, s, i);
      SelectIsFirstBest(cmp, s, i, sel);
      PlaceBest(cmp, s, i, sel);
      SortFromOrders(cmp, Swapped(s, sel, i), i + 1);
    } else {
      assert SortedUpTo(cmp, SortFrom(cmp, s, i), |s|);
    }
  }

  /** The sort yields a permutation of its input, ordered by the comparator. */
  lemma SelectionSortedIsOrderedPermutation<T(!new)>(cmp: (T, T) -> int, s: seq<T>)
    requires IsTotalPreorder(cmp)
    ensures Ordered(cmp, SelectionSorted(cmp, s))
    ensures multiset(SelectionSorted(cmp, s)) == multiset(s)
  {
    if |s| > 1 {
      SortFromOrders(cmp, s, 0);
      SortFromIsPermutation(cmp, s, 0);
    }
  }

  lemma {:induction false} SortFromOrderedIsIdentity<T(!new)>(cmp: (T, T) -> int, s: seq<T>, i: nat)
    requires IsTotalPreorder(cmp) && i <= |s| && Ordered(cmp, s)
    ensures SortFrom(cmp, s, i) == s
    decreases |s| - i
  {
    if i < |s| {
      var sel := Select(cmp, s, i);
      SelectIsFirstBest(cmp, s, i, sel);
      assert cmp(s[sel], s[i]) > 0 <==> cmp(s[i], s[sel]) < 0;
      SwappedIsPermutation(s, sel, i);
      SortFromOrderedIsIdentity(cmp, s, i + 1);
    }
  }

  /**
  An input already ordered by the comparator is left exactly as it is, ties included:
  each pass selects its own position.
  */
  lemma OrderedInputIsUnchanged<T(!new)>(cmp: (T, T) -> int, s: seq<T>)
    requires IsTotalPreorder(cmp) && Ordered(cmp, s)
    ensures SelectionSorted(cmp, s) == s
  {
    if |s| > 1 {
      SortFromOrderedIsIdentity(cmp, s, 0);
    }
  }

  /** Sorting twice with the same comparator gives the same result as sorting once. */
  lemma SelectionSortedIsIdempotent<T(!new)>(cmp: (T, T) -> int, s: seq<T>)
    requires IsTotalPreorder(cmp)
    ensures SelectionSorted(cmp, SelectionSorted(cmp, s)) == SelectionSorted(cmp, s)
  {
    SelectionSortedIsOrderedPermutation(cmp, s);
    OrderedInputIsUnchanged(cmp, SelectionSorted(cmp, s));
  }

  // ---------------------------------------------------------------------------
  // The sort, in place

  /**
  The inner loop of pass `i`: scans `a[i + 1..]` and returns the first index of an
  element the comparator ranks highest in `a[i..]`, replacing the candidate only
  on a strictly positive comparison. `calls` counts the comparator calls.
  */
  method SelectIndex<T(!new)>(a: array<T>, cmp: (T, T) -> int, i: nat) returns (selectedItemIndex: nat, ghost calls: nat)
    requires IsTotalPreorder(cmp) && i < a.Length
    ensures FirstBest(cmp, a[..], i, a.Length, selectedItemIndex)
    ensures selectedItemIndex == Select(cmp, a[..], i)
    ensures calls == a.Length - (i + 1)
  {
    selectedItemIndex, calls := i, 0;
    FirstBestStart(cmp, a[..], i);
    for j := i + 1 to a.Length
      invariant FirstBest(cmp, a[..], i, j, selectedItemIndex)
      invariant calls == j - (i + 1)
    {
      var item := a[j];
      FirstBestStep(cmp, a[..], i, j, selectedItemIndex);
      if cmp(item, a[selectedItemIndex]) > 0 {
        selectedItemIndex := j;
      }
      calls := calls + 1;
    }
    SelectIsFirstBest(cmp, a[..], i, selectedItemIndex);
  }

  /**
  Sorts `a` in place so that no element is ranked above an earlier one. Arrays of
  length 0 or 1 are returned untouched. `calls` counts the comparator calls.
  */
  method SelectionSort<T(!new)>(a: array<T>, cmp: (T, T) -> int) returns (ghost calls: nat)
    requires IsTotalPreorder(cmp)
    modifies a
    ensures a[..] == SelectionSorted(cmp, old(a[..]))
    ensures a.Length <= 1 ==> a[..] == old(a[..])
    ensures Ordered(cmp, a[..])
    ensures multiset(a[..]) == multiset(old(a[..]))
    ensures calls == PassCalls(a.Length, a.Length)
  {
    calls := 0;
    if a.Length <= 1 {
      return;
    }
    ghost var sorted := SortFrom(cmp, a[..], 0);
    for i := 0 to a.Length
      invariant SortedUpTo(cmp, a[..], i)
      invariant SortFrom(cmp, a[..], i) == sorted
      invariant calls == PassCalls(a.Length, i)
    {
      var selectedItemIndex, passCalls := SelectIndex(a, cmp, i);
      PlaceBest(cmp, a[..], i, selectedItemIndex);
      Swap(a, selectedItemIndex, i);
      calls := calls + passCalls;
    }
    SelectionSortedIsOrderedPermutation(cmp, old(a[..]));
  }

  // ---------------------------------------------------------------------------
  // The demonstration

  /** One pass of `SortFrom`, for stepping through concrete inputs. */
  lemma SortFromPass<T(!new)>(cmp: (T, T) -> int, s: seq<T>, i: nat, sel: nat, t: seq<T>)
    requires i < |s| && Select(cmp, s, i) == sel && Swapped(s, sel, i) == t
    ensures SortFrom(cmp, s, i) == SortFrom(cmp, t, i + 1)
  {
  }

  /**
  The first two passes on [2, 5, 3, 1, 7] with the ascending preset: pass 0 selects 1
  and gives [1, 5, 3, 2, 7], pass 1 selects 2 and gives [1, 2, 3, 5, 7].
  */
  lemma AscendingScenarioPasses()
    ensures Swapped([2, 5, 3, 1, 7], Select(AscendingComparator, [2, 5, 3, 1, 7], 0), 0) == [1, 5, 3, 2, 7]
    ensures Swapped([1, 5, 3, 2, 7], Select(AscendingComparator, [1, 5, 3, 2, 7], 1), 1) == [1, 2, 3, 5, 7]
  {
  }

  /** Sorting [2, 5, 3, 1, 7] with the ascending preset yields [1, 2, 3, 5, 7]. */
  lemma AscendingScenario()
    ensures SelectionSorted(AscendingComparator, [2, 5, 3, 1, 7]) == [1, 2, 3, 5, 7]
  {
    var c := AscendingComparator;
    assert Select(c, [2, 5, 3, 1, 7], 0) == 3;
    SortFromPass(c, [2, 5, 3, 1, 7], 0, 3, [1, 5, 3, 2, 7]);
    assert Select(c, [1, 5, 3, 2, 7], 1) == 3;
    SortFromPass(c, [1, 5, 3, 2, 7], 1, 3, [1, 2, 3, 5, 7]);
    assert Select(c, [1, 2, 3, 5, 7], 2) == 2;
    SortFromPass(c, [1, 2, 3, 5, 7], 2, 2, [1, 2, 3, 5, 7]);
    assert Select(c, [1, 2, 3, 5, 7], 3) == 3;
    SortFromPass(c, [1, 2, 3, 5, 7], 3, 3, [1, 2, 3, 5, 7]);
    assert Select(c, [1, 2, 3, 5, 7], 4) == 4;
    SortFromPass(c, [1, 2, 3, 5, 7], 4, 4, [1, 2, 3, 5, 7]);
  }

  /** Sorting [1, 2, 3, 5, 7] with the descending preset yields [7, 5, 3, 2, 1]. */
  lemma DescendingScenario()
    ensures SelectionSorted(DescendingComparator, [1, 2, 3, 5, 7]) == [7, 5, 3, 2, 1]
  {
    var c := DescendingComparator;
    assert Select(c, [1, 2, 3, 5, 7], 0) == 4;
    SortFromPass(c, [1, 2, 3, 5, 7], 0, 4, [7, 2, 3, 5, 1]);
    assert Select(c, [7, 2, 3, 5, 1], 1) == 3;
    SortFromPass(c, [7, 2, 3, 5, 1], 1, 3, [7, 5, 3, 2, 1]);
    assert Select(c, [7, 5, 3, 2, 1], 2) == 2;
    SortFromPass(c, [7, 5, 3, 2, 1], 2, 2, [7, 5, 3, 2, 1]);
    assert Select(c, [7, 5, 3, 2, 1], 3) == 3;
    SortFromPass(c, [7, 5, 3, 2, 1], 3, 3, [7, 5, 3, 2, 1]);
    assert Select(c, [7, 5, 3, 2, 1], 4) == 4;
    SortFromPass(c, [7, 5, 3, 2, 1], 4, 4, [7, 5, 3, 2, 1]);
  }

  /** Orders integers tagged with a mark by value alone, smallest first; the mark is not compared. */
  function ByValueAscending(x: (int, bool), y: (int, bool)): (r: int)
    ensures r > 0 <==> x.0 < y.0
    ensures r < 0 <==> x.0 > y.0
  {
    AscendingComparator(x.0, y.0)
  }

  lemma ByValueAscendingIsTotalPreorder()
    ensures IsTotalPreorder(ByValueAscending)
  {
  }

  /**
  The sort is not stable. In [4*, 2, 3, 4, 1] (the mark written `*`, `true` below) the
  first pass swaps 1 with 4*, which lands behind the other 4: the result is
  [1, 2, 3, 4, 4*], so the two 4s end up in the opposite of their input order.
  */
  lemma NotStable()
    ensures SelectionSorted(ByValueAscending, [(4, true), (2, false), (3, false), (4, false), (1, false)])
         == [(1, false), (2, false), (3, false), (4, false), (4, true)]
  {
    var c := ByValueAscending;
    var s0 := [(4, true), (2, false), (3, false), (4, false), (1, false)];
    var s1 := [(1, false), (2, false), (3, false), (4, false), (4, true)];
    assert Select(c, s0, 0) == 4;
    SortFromPass(c, s0, 0, 4, s1);
    assert Select(c, s1, 1) == 1;
    SortFromPass(c, s1, 1, 1, s1);
    assert Select(c, s1, 2) == 2;
    SortFromPass(c, s1, 2, 2, s1);
    assert Select(c, s1, 3) == 3;
    SortFromPass(c, s1, 3, 3, s1);
    assert Select(c, s1, 4) == 4;
    SortFromPass(c, s1, 4, 4, s1);
  }

  /** The first half of the demonstration: a fresh array [2, 5, 3, 1, 7] sorted ascending. */
  method SortAscendingDemo() returns (values: array<int>, ghost calls: nat)
    ensures fresh(values)
    ensures values[..] == [1, 2, 3, 5, 7]
    ensures calls == 10
  {
    AscendingIsTotalPreorder();
    AscendingScenario();
    ComparisonCountClosedForm(5);
    values := new int[5];
    values[0], values[1], values[2], values[3], values[4] := 2, 5, 3, 1, 7;
    assert values[..] == [2, 5, 3, 1, 7];
    calls := SelectionSort(values, AscendingComparator);
  }

  /**
  The demonstration: sort [2, 5, 3, 1, 7] ascending into `first`, then the same array
  descending into `second`.
  */
  method Demo() returns (first: seq<int>, second: seq<int>, ghost firstCalls: nat, ghost secondCalls: nat)
    ensures first == [1, 2, 3, 5, 7]
    ensures second == [7, 5, 3, 2, 1]
    ensures firstCalls == secondCalls == 10
  {
    var values;
    values, firstCalls := SortAscendingDemo();
    first := values[..];
    DescendingIsTotalPreorder();
    DescendingScenario();
    secondCalls := SelectionSort(values, DescendingComparator);
    second := values[..];
  }
}
