/** A model of the fork/join merge sort task (MergeSortTask).

    The task owns a list (here an array) and sorts it in place: a list of one
    element is already sorted; a longer list is split at `size / 2` into two
    fresh copies, each copy is sorted by a sub-task, and the two sorted halves
    are merged back into the task's own list with a stable two-pointer merge.

    The forked left sub-task works on its own copy, so running it as an
    ordinary recursive call observes exactly the same values; the fork/join
    scheduling itself is not modelled.

    `cmp(x, y)` stands for `x.compareTo(y)`; the algorithm only ever asks
    whether it is `<= 0`.
 */
module MergeSort {

  /** `x` sorts no later than `y`: `x.compareTo(y) <= 0`. */
  ghost predicate Below<T>(cmp: (T, T) -> int, x: T, y: T) {
    cmp(x, y) <= 0
  }

  /** The part of the `Comparable` contract the proofs rely on: `compareTo(x, y) <= 0`
      is a total preorder (any two elements compare, and it is transitive). */
  ghost predicate TotalPreorder<T(!new)>(cmp: (T, T) -> int) {
    && (forall x, y :: Below(cmp, x, y) || Below(cmp, y, x))
    && (forall x, y, z :: Below(cmp, x, y) && Below(cmp, y, z) ==> Below(cmp, x, z))
  }

  /** Every element is `<=` every later element. */
  ghost predicate Sorted<T>(cmp: (T, T) -> int, s: seq<T>) {
    forall i, j :: 0 <= i < j < |s| ==> cmp(s[i], s[j]) <= 0
  }

  /** `x` and `y` compare as equal in both directions. */
  ghost predicate Equivalent<T>(cmp: (T, T) -> int, x: T, y: T) {
    cmp(x, y) <= 0 && cmp(y, x) <= 0
  }

  /** The subsequence of `s` made of the elements equivalent to `x`, in their order in `s`.
      A sort is stable exactly when it keeps this subsequence for every `x`. */
  ghost function Equivalents<T>(cmp: (T, T) -> int, s: seq<T>, x: T): seq<T> {
    if s == [] then []
    else (if Equivalent(cmp, s[0], x) then [s[0]] else []) + Equivalents(cmp, s[1..], x)
  }

  /** The split of `compute`: the left copy takes the first `size / 2` elements,
      the right copy the remaining `size - size / 2`. */
  function Halves<T>(s: seq<T>): (h: (seq<T>, seq<T>))
    ensures h.0 + h.1 == s
    ensures |h.0| == |s| / 2 && |h.1| == |s| - |s| / 2
  {
    (s[..|s| / 2], s[|s| / 2..])
  }

  /** What `mergeResults` writes: repeatedly take the smaller head, the left one on ties
      (`compareTo <= 0`), and when one side runs out, the rest of the other. */
  function Merge<T>(cmp: (T, T) -> int, left: seq<T>, right: seq<T>): (r: seq<T>)
    ensures |r| == |left| + |right|
    decreases |left| + |right|
  {
    if left == [] then right
    else if right == [] then left
    else if cmp(left[0], right[0]) <= 0 then [left[0]] + Merge(cmp, left[1..], right)
    else [right[0]] + Merge(cmp, left, right[1..])
  }

  /** The merge as `mergeResults` runs it, from read positions `i` (left) and `j` (right). */
  function MergeFrom<T>(cmp: (T, T) -> int, left: seq<T>, right: seq<T>, i: nat, j: nat): (r: seq<T>)
    requires i <= |left| && j <= |right|
    ensures |r| == |left| - i + |right| - j
    decreases |left| - i + |right| - j
  {
    if i == |left| then right[j..]
    else if j == |right| then left[i..]
    else if cmp(left[i], right[j]) <= 0 then [left[i]] + MergeFrom(cmp, left, right, i + 1, j)
    else [right[j]] + MergeFrom(cmp, left, right, i, j + 1)
  }

  /** A step of `mergeResults` that writes the left element: the right side is used up,
      or the left element is `<=` the right one. */
  lemma MergeFromTakesLeft<T>(cmp: (T, T) -> int, left: seq<T>, right: seq<T>, i: nat, j: nat)
    requires i < |left| && j <= |right|
    requires j == |right| || cmp(left[i], right[j]) <= 0
    ensures MergeFrom(cmp, left, right, i, j)[0] == left[i]
    ensures MergeFrom(cmp, left, right, i, j)[1..] == MergeFrom(cmp, left, right, i + 1, j)
  {
    if j == |right| {
      assert left[i..][1..] == left[i + 1..];
    }
  }

  /** A step of `mergeResults` that writes the right element: the left side is used up,
      or the left element is `>` the right one. */
  lemma MergeFromTakesRight<T>(cmp: (T, T) -> int, left: seq<T>, right: seq<T>, i: nat, j: nat)
    requires i <= |left| && j < |right|
    requires i == |left| || cmp(left[i], right[j]) > 0
    ensures MergeFrom(cmp, left, right, i, j)[0] == right[j]
    ensures MergeFrom(cmp, left, right, i, j)[1..] == MergeFrom(cmp, left, right, i, j + 1)
  {
    if i == |left| {
      assert right[j..][1..] == right[j + 1..];
    }
  }

  /** Moving the first element of `s` to the end of `a` keeps `a + s`. */
  lemma ShiftIntoPrefix<T>(a: seq<T>, s: seq<T>)
    requires s != []
    ensures (a + [s[0]]) + s[1..] == a + s
  {
    assert s == [s[0]] + s[1..];
  }

  /** Once either side is used up, merging from there only appends what is left of the other. */
  lemma MergeFromExhausted<T>(cmp: (T, T) -> int, left: seq<T>, right: seq<T>, i: nat, j: nat)
    requires i <= |left| && j <= |right| && (i == |left| || j == |right|)
    ensures MergeFrom(cmp, left, right, i, j) == left[i..] + right[j..]
  {
    if i == |left| {
      assert left[i..] == [];
    } else {
      assert right[j..] == [];
    }
  }

  /** One step of the first merge loop that copies `left[i]` to position `i + j` of the
      list: what is written, followed by the merge of what is left, is unchanged. */
  lemma WriteLeft<T>(cmp: (T, T) -> int, left: seq<T>, right: seq<T>, i: nat, j: nat, k: nat,
                     contents: seq<T>, merged: seq<T>)
    requires i < |left| && j <= |right| && k == i + j < |contents|
    requires j == |right| || cmp(left[i], right[j]) <= 0
    requires contents[..k] + MergeFrom(cmp, left, right, i, j) == merged
    ensures contents[k := left[i]][..k + 1] + MergeFrom(cmp, left, right, i + 1, j) == merged
  {
    MergeFromTakesLeft(cmp, left, right, i, j);
    ShiftIntoPrefix(contents[..k], MergeFrom(cmp, left, right, i, j));
    assert contents[k := left[i]][..k + 1] == contents[..k] + [left[i]];
  }

  /** The same for a step that copies `right[j]`. */
  lemma WriteRight<T>(cmp: (T, T) -> int, left: seq<T>, right: seq<T>, i: nat, j: nat, k: nat,
                      contents: seq<T>, merged: seq<T>)
    requires i <= |left| && j < |right| && k == i + j < |contents|
    requires i == |left| || cmp(left[i], right[j]) > 0
    requires contents[..k] + MergeFrom(cmp, left, right, i, j) == merged
    ensures contents[k := right[j]][..k + 1] + MergeFrom(cmp, left, right, i, j + 1) == merged
  {
    MergeFromTakesRight(cmp, left, right, i, j);
    ShiftIntoPrefix(contents[..k], MergeFrom(cmp, left, right, i, j));
    assert contents[k := right[j]][..k + 1] == contents[..k] + [right[j]];
  }

  /** Merging from positions `i` and `j` is merging what is left of the two lists. */
  lemma {:induction false} MergeFromIsMerge<T>(cmp: (T, T) -> int, left: seq<T>, right: seq<T>, i: nat, j: nat)
    requires i <= |left| && j <= |right|
    ensures MergeFrom(cmp, left, right, i, j) == Merge(cmp, left[i..], right[j..])
    decreases |left| - i + |right| - j
  {
    if i < |left| && j < |right| {
      assert left[i..][0] == left[i] && left[i..][1..] == left[i + 1..];
      assert right[j..][0] == right[j] && right[j..][1..] == right[j + 1..];
      if cmp(left[i], right[j]) <= 0 {
        MergeFromIsMerge(cmp, left, right, i + 1, j);
      } else {
        MergeFromIsMerge(cmp, left, right, i, j + 1);
      }
    }
  }

  /** Merging from the start is `Merge`. */
  lemma MergeFromStart<T>(cmp: (T, T) -> int, left: seq<T>, right: seq<T>)
    ensures MergeFrom(cmp, left, right, 0, 0) == Merge(cmp, left, right)
  {
    MergeFromIsMerge(cmp, left, right, 0, 0);
    assert left[0..] == left && right[0..] == right;
  }

  /** What `compute` leaves in its list. A list of size 0 never reaches the base case
      (both halves are empty again), so the list must not be empty. */
  function Sort<T>(cmp: (T, T) -> int, s: seq<T>): (r: seq<T>)
    requires |s| >= 1
    ensures |r| == |s|
    decreases |s|
  {
    if |s| == 1 then s
    else
      var h := Halves(s);
      Merge(cmp, Sort(cmp, h.0), Sort(cmp, h.1))
  }

  // ---------------------------------------------------------------------------
  // Permutation

  /** The merge writes each element of both halves exactly once. */
  lemma {:induction false} MergePermutation<T>(cmp: (T, T) -> int, left: seq<T>, right: seq<T>)
    ensures multiset(Merge(cmp, left, right)) == multiset(left) + multiset(right)
    decreases |left| + |right|
  {
    if left != [] && right != [] {
      if cmp(left[0], right[0]) <= 0 {
        var a, rest := left[0], left[1..];
        assert left == [a] + rest;
        assert Merge(cmp, left, right) == [a] + Merge(cmp, rest, right);
        MergePermutation(cmp, rest, right);
      } else {
        var b, rest := right[0], right[1..];
        assert right == [b] + rest;
        assert Merge(cmp, left, right) == [b] + Merge(cmp, left, rest);
        MergePermutation(cmp, left, rest);
      }
    }
  }

  /** `compute` only reorders: the multiset of elements is that of the input. */
  lemma {:induction false} MergeSortPermutation<T>(cmp: (T, T) -> int, s: seq<T>)
    requires |s| >= 1
    ensures multiset(Sort(cmp, s)) == multiset(s)
    decreases |s|
  {
    if |s| > 1 {
      var h := Halves(s);
      MergeSortPermutation(cmp, h.0);
      MergeSortPermutation(cmp, h.1);
      MergePermutation(cmp, Sort(cmp, h.0), Sort(cmp, h.1));
    }
  }

  // ---------------------------------------------------------------------------
  // Sortedness

  /** Every element of `s` is at least `x`. */
  ghost predicate AtLeast<T>(cmp: (T, T) -> int, x: T, s: seq<T>) {
    forall i :: 0 <= i < |s| ==> cmp(x, s[i]) <= 0
  }

  lemma AtLeastOfMultiset<T>(cmp: (T, T) -> int, x: T, s: seq<T>, t: seq<T>)
    requires multiset(s) == multiset(t) && AtLeast(cmp, x, t)
    ensures AtLeast(cmp, x, s)
  {
    forall i | 0 <= i < |s| ensures cmp(x, s[i]) <= 0 {
      assert s[i] in multiset(t);
      var j :| 0 <= j < |t| && t[j] == s[i];
    }
  }

  /** A sorted list stays sorted when an element no greater than any of it is put in front. */
  lemma SortedCons<T>(cmp: (T, T) -> int, a: T, s: seq<T>)
    requires Sorted(cmp, s) && AtLeast(cmp, a, s)
    ensures Sorted(cmp, [a] + s)
  {
    forall i, j | 0 <= i < j < |[a] + s| ensures cmp(([a] + s)[i], ([a] + s)[j]) <= 0 {
      if i > 0 {
        assert ([a] + s)[i] == s[i - 1] && ([a] + s)[j] == s[j - 1];
      } else {
        assert ([a] + s)[j] == s[j - 1];
      }
    }
  }

  /** If `x` is below all of `s` and below the head of a sorted `t`, it is below `s + t`. */
  lemma AtLeastAppend<T(!new)>(cmp: (T, T) -> int, x: T, s: seq<T>, t: seq<T>)
    requires TotalPreorder(cmp) && AtLeast(cmp, x, s) && Sorted(cmp, t)
    requires t != [] && cmp(x, t[0]) <= 0
    ensures AtLeast(cmp, x, s + t)
  {
    forall i | 0 <= i < |s + t| ensures cmp(x, (s + t)[i]) <= 0 {
      if i >= |s| {
        assert (s + t)[i] == t[i - |s|];
        assert Below(cmp, x, t[0]) && Below(cmp, t[0], t[i - |s|]);
      }
    }
  }

  /** The tail of a sorted list is sorted and lies above its head. */
  lemma SortedTail<T>(cmp: (T, T) -> int, s: seq<T>)
    requires Sorted(cmp, s) && s != []
    ensures Sorted(cmp, s[1..]) && AtLeast(cmp, s[0], s[1..])
  {
  }

  /** Merging two sorted lists gives a sorted list. */
  lemma {:induction false} MergeSorted<T(!new)>(cmp: (T, T) -> int, left: seq<T>, right: seq<T>)
    requires TotalPreorder(cmp) && Sorted(cmp, left) && Sorted(cmp, right)
    ensures Sorted(cmp, Merge(cmp, left, right))
    decreases |left| + |right|
  {
    if left == [] || right == [] {
    } else if cmp(left[0], right[0]) <= 0 {
      var a, tail := left[0], left[1..];
      SortedTail(cmp, left);
      var rest := Merge(cmp, tail, right);
      MergeSorted(cmp, tail, right);
      MergePermutation(cmp, tail, right);
      AtLeastAppend(cmp, a, tail, right);
      AtLeastOfMultiset(cmp, a, rest, tail + right);
      SortedCons(cmp, a, rest);
      assert Merge(cmp, left, right) == [a] + rest;
    } else {
      var b, tail := right[0], right[1..];
      assert Below(cmp, b, left[0]);
      SortedTail(cmp, right);
      var rest := Merge(cmp, left, tail);
      MergeSorted(cmp, left, tail);
      MergePermutation(cmp, left, tail);
      assert multiset(rest) == multiset(tail + left);
      AtLeastAppend(cmp, b, tail, left);
      AtLeastOfMultiset(cmp, b, rest, tail + left);
      SortedCons(cmp, b, rest);
      assert Merge(cmp, left, right) == [b] + rest;
    }
  }

  lemma {:induction false} MergeSortSorted<T(!new)>(cmp: (T, T) -> int, s: seq<T>)
    requires TotalPreorder(cmp) && |s| >= 1
    ensures Sorted(cmp, Sort(cmp, s))
    decreases |s|
  {
    if |s| > 1 {
      var h := Halves(s);
      MergeSortSorted(cmp, h.0);
      MergeSortSorted(cmp, h.1);
      MergeSorted(cmp, Sort(cmp, h.0), Sort(cmp, h.1));
    }
  }

  // ---------------------------------------------------------------------------
  // Stability

  lemma EquivalentsCons<T>(cmp: (T, T) -> int, a: T, s: seq<T>, x: T)
    ensures Equivalents(cmp, [a] + s, x)
         == (if Equivalent(cmp, a, x) then [a] else []) + Equivalents(cmp, s, x)
  {
    assert ([a] + s)[0] == a && ([a] + s)[1..] == s;
  }

  lemma {:induction false} EquivalentsConcat<T>(cmp: (T, T) -> int, s: seq<T>, t: seq<T>, x: T)
    ensures Equivalents(cmp, s + t, x) == Equivalents(cmp, s, x) + Equivalents(cmp, t, x)
    decreases |s|
  {
    if s == [] {
      assert s + t == t;
    } else {
      var a, rest := s[0], s[1..];
      assert s == [a] + rest;
      assert s + t == [a] + (rest + t);
      EquivalentsConcat(cmp, rest, t, x);
      EquivalentsCons(cmp, a, rest + t, x);
      EquivalentsCons(cmp, a, rest, x);
    }
  }

  lemma {:induction false} NoEquivalents<T>(cmp: (T, T) -> int, s: seq<T>, x: T)
    requires forall i :: 0 <= i < |s| ==> !Equivalent(cmp, s[i], x)
    ensures Equivalents(cmp, s, x) == []
    decreases |s|
  {
    if s != [] {
      NoEquivalents(cmp, s[1..], x);
    }
  }

  /** When the merge takes a right element `y` before the left head, no element of the
      (sorted) left side is equivalent to `y`: it would be `<= y`, and so would the left head. */
  lemma NothingEquivalentBefore<T(!new)>(cmp: (T, T) -> int, left: seq<T>, y: T, x: T)
    requires TotalPreorder(cmp) && Sorted(cmp, left)
    requires left != [] && cmp(left[0], y) > 0 && Equivalent(cmp, y, x)
    ensures Equivalents(cmp, left, x) == []
  {
    forall i | 0 <= i < |left| ensures !Equivalent(cmp, left[i], x) {
      assert Below(cmp, left[0], left[i]) && Below(cmp, x, y);
      assert Below(cmp, left[i], x) ==> Below(cmp, left[0], x);
      assert Below(cmp, left[0], x) ==> Below(cmp, left[0], y);
    }
    NoEquivalents(cmp, left, x);
  }

  lemma AppendAssociative<T>(p: seq<T>, q: seq<T>, r: seq<T>)
    ensures p + (q + r) == (p + q) + r
  {
  }

  lemma AppendSwap<T>(p: seq<T>, q: seq<T>, r: seq<T>)
    requires p == [] || q == []
    ensures p + (q + r) == q + (p + r)
  {
    if p == [] {
      assert p + (q + r) == q + r && p + r == r;
    } else {
      assert q + r == r && q + (p + r) == p + r;
    }
  }

  /** The step of `MergeStable` where the merge takes the left head `a`. */
  lemma StableTakeLeft<T>(cmp: (T, T) -> int, a: T, rest: seq<T>, right: seq<T>, merged: seq<T>, x: T)
    requires Equivalents(cmp, merged, x) == Equivalents(cmp, rest, x) + Equivalents(cmp, right, x)
    ensures Equivalents(cmp, [a] + merged, x)
         == Equivalents(cmp, [a] + rest, x) + Equivalents(cmp, right, x)
  {
    EquivalentsCons(cmp, a, merged, x);
    EquivalentsCons(cmp, a, rest, x);
    AppendAssociative(if Equivalent(cmp, a, x) then [a] else [], Equivalents(cmp, rest, x), Equivalents(cmp, right, x));
  }

  /** The step of `MergeStable` where the merge takes the right head `b`; nothing on the
      left side is then equivalent to `x` unless `b` is not. */
  lemma StableTakeRight<T>(cmp: (T, T) -> int, left: seq<T>, b: T, rest: seq<T>, merged: seq<T>, x: T)
    requires Equivalents(cmp, merged, x) == Equivalents(cmp, left, x) + Equivalents(cmp, rest, x)
    requires Equivalent(cmp, b, x) ==> Equivalents(cmp, left, x) == []
    ensures Equivalents(cmp, [b] + merged, x)
         == Equivalents(cmp, left, x) + Equivalents(cmp, [b] + rest, x)
  {
    EquivalentsCons(cmp, b, merged, x);
    EquivalentsCons(cmp, b, rest, x);
    AppendSwap(if Equivalent(cmp, b, x) then [b] else [], Equivalents(cmp, left, x), Equivalents(cmp, rest, x));
  }

  /** The merge is stable: among elements equivalent to `x`, the left ones come first,
      each side in its own order. This is where the `<= 0` (rather than `< 0`) matters.
      Only the left side needs to be sorted for this. */
  lemma {:induction false} MergeStable<T(!new)>(cmp: (T, T) -> int, left: seq<T>, right: seq<T>, x: T)
    requires TotalPreorder(cmp) && Sorted(cmp, left)
    ensures Equivalents(cmp, Merge(cmp, left, right), x)
         == Equivalents(cmp, left, x) + Equivalents(cmp, right, x)
    decreases |left| + |right|
  {
    if left == [] {
      assert Merge(cmp, left, right) == right;
    } else if right == [] {
      assert Merge(cmp, left, right) == left;
    } else if cmp(left[0], right[0]) <= 0 {
      var a, rest := left[0], left[1..];
      SortedTail(cmp, left);
      MergeStable(cmp, rest, right, x);
      StableTakeLeft(cmp, a, rest, right, Merge(cmp, rest, right), x);
      assert left == [a] + rest;
    } else {
      var b, rest := right[0], right[1..];
      MergeStable(cmp, left, rest, x);
      if Equivalent(cmp, b, x) {
        NothingEquivalentBefore(cmp, left, b, x);
      }
      StableTakeRight(cmp, left, b, rest, Merge(cmp, left, rest), x);
      assert right == [b] + rest;
    }
  }

  /** `compute` is a stable sort: for every element `x`, the elements equivalent to `x`
      appear in the result in the same relative order as in the input. */
  lemma {:induction false} MergeSortStable<T(!new)>(cmp: (T, T) -> int, s: seq<T>, x: T)
    requires TotalPreorder(cmp) && |s| >= 1
    ensures Equivalents(cmp, Sort(cmp, s), x) == Equivalents(cmp, s, x)
    decreases |s|
  {
    if |s| > 1 {
      var h := Halves(s);
      MergeSortStable(cmp, h.0, x);
      MergeSortStable(cmp, h.1, x);
      MergeSortSorted(cmp, h.0);
      MergeSortSorted(cmp, h.1);
      MergeStable(cmp, Sort(cmp, h.0), Sort(cmp, h.1), x);
      EquivalentsConcat(cmp, h.0, h.1, x);
    }
  }

  // ---------------------------------------------------------------------------
  // Already sorted input

  /** When no right element is smaller than a left one, the merge takes all of the left
      side first (ties go left). */
  lemma {:induction false} MergeOrdered<T>(cmp: (T, T) -> int, left: seq<T>, right: seq<T>)
    requires forall i, j :: 0 <= i < |left| && 0 <= j < |right| ==> cmp(left[i], right[j]) <= 0
    ensures Merge(cmp, left, right) == left + right
    decreases |left|
  {
    if left != [] && right != [] {
      MergeOrdered(cmp, left[1..], right);
      assert left == [left[0]] + left[1..];
    }
  }

  /** A list that is already sorted comes back from `compute` unchanged. */
  lemma {:induction false} MergeSortOfSorted<T>(cmp: (T, T) -> int, s: seq<T>)
    requires |s| >= 1 && Sorted(cmp, s)
    ensures Sort(cmp, s) == s
    decreases |s|
  {
    if |s| > 1 {
      var h := Halves(s);
      assert forall i :: 0 <= i < |h.0| ==> h.0[i] == s[i];
      assert forall j :: 0 <= j < |h.1| ==> h.1[j] == s[|h.0| + j];
      MergeSortOfSorted(cmp, h.0);
      MergeSortOfSorted(cmp, h.1);
      MergeOrdered(cmp, h.0, h.1);
    }
  }

  /** Sorting twice gives the same list as sorting once. */
  lemma MergeSortIdempotent<T(!new)>(cmp: (T, T) -> int, s: seq<T>)
    requires TotalPreorder(cmp) && |s| >= 1
    ensures Sort(cmp, Sort(cmp, s)) == Sort(cmp, s)
  {
    MergeSortSorted(cmp, s);
    MergeSortOfSorted(cmp, Sort(cmp, s));
  }

  // ---------------------------------------------------------------------------
  // The task

  class MergeSortTask<T(!new)> {
    /** The list this task sorts in place. */
    const list: array<T>
    /** `cmp(x, y)` is `x.compareTo(y)`. */
    const cmp: (T, T) -> int

    constructor (list: array<T>, cmp: (T, T) -> int)
      ensures this.list == list && this.cmp == cmp
    {
      this.list := list;
      this.cmp := cmp;
    }

    /** Sorts `list` in place and returns that same list. The left half is forked in
        the source; here it is computed on its own copy at the point of the join. */
    method Compute() returns (result: array<T>)
      requires list.Length >= 1
      modifies list
      ensures result == list
      ensures list[..] == Sort(cmp, old(list[..]))
      ensures multiset(list[..]) == multiset(old(list[..]))
      ensures list.Length == 1 ==> list[..] == old(list[..])
      ensures TotalPreorder(cmp) ==> Sorted(cmp, list[..])
      decreases list.Length
    {
      if list.Length == 1 {
        return list;
      }
      ghost var input := list[..];
      var mid := list.Length / 2;
      var leftPart := list[..mid];
      var leftCopy := new T[mid](i requires 0 <= i < mid => leftPart[i]);
      var leftTask := new MergeSortTask(leftCopy, cmp);
      var rightPart := list[mid..];
      var rightCopy := new T[|rightPart|](i requires 0 <= i < |rightPart| => rightPart[i]);
      var rightTask := new MergeSortTask(rightCopy, cmp);
      assert leftTask.list[..] == Halves(input).0 && rightTask.list[..] == Halves(input).1;
      var rightResult := rightTask.Compute();
      var leftResult := leftTask.Compute();
      MergeResults(leftResult[..], rightResult[..]);
      MergeFromStart(cmp, leftResult[..], rightResult[..]);
      MergeSortPermutation(cmp, input);
      if TotalPreorder(cmp) {
        MergeSortSorted(cmp, input);
      }
      return list;
    }

    /** Overwrites `list`, which is exactly as long as both halves together, with their
        stable merge (`MergeFromStart` relates it to `Merge`). */
    method MergeResults(leftList: seq<T>, rightList: seq<T>)
      requires |leftList| + |rightList| == list.Length
      modifies list
      ensures list[..] == MergeFrom(cmp, leftList, rightList, 0, 0)
    {
      var leftIndex, rightIndex, resultIndex := 0, 0, 0;
      var leftSize, rightSize := |leftList|, |rightList|;
      ghost var merged := MergeFrom(cmp, leftList, rightList, 0, 0);
      ghost var contents := list[..];

      while leftIndex < leftSize && rightIndex < rightSize
        invariant 0 <= leftIndex <= leftSize && 0 <= rightIndex <= rightSize
        invariant resultIndex == leftIndex + rightIndex
        invariant list[..] == contents
        invariant contents[..resultIndex] + MergeFrom(cmp, leftList, rightList, leftIndex, rightIndex) == merged
      {
        if cmp(leftList[leftIndex], rightList[rightIndex]) <= 0 {
          WriteLeft(cmp, leftList, rightList, leftIndex, rightIndex, resultIndex, contents, merged);
          list[resultIndex] := leftList[leftIndex];
          contents := contents[resultIndex := leftList[leftIndex]];
          resultIndex, leftIndex := resultIndex + 1, leftIndex + 1;
        } else {
          WriteRight(cmp, leftList, rightList, leftIndex, rightIndex, resultIndex, contents, merged);
          list[resultIndex] := rightList[rightIndex];
          contents := contents[resultIndex := rightList[rightIndex]];
          resultIndex, rightIndex := resultIndex + 1, rightIndex + 1;
        }
      }

      // One side is used up: what is left to write is the rest of the other side, and
      // the second and third loops of `mergeResults` copy it.
      MergeFromExhausted(cmp, leftList, rightList, leftIndex, rightIndex);
      ghost var written := contents[..resultIndex];
      resultIndex := CopyRest(leftList, leftIndex, resultIndex);
      resultIndex := CopyRest(rightList, rightIndex, resultIndex);
      AppendAssociative(written, leftList[leftIndex..], rightList[rightIndex..]);
      assert list[..] == list[..resultIndex];
    }

    /** The copying loops of `mergeResults`: writes `src[from..]` to the list from
        position `at` on, and returns the position after the last one written. */
    method CopyRest(src: seq<T>, from: int, at: int) returns (end: int)
      requires 0 <= from <= |src| && 0 <= at && at + (|src| - from) <= list.Length
      modifies list
      ensures end == at + (|src| - from)
      ensures list[..end] == old(list[..at]) + src[from..]
      ensures list[end..] == old(list[end..])
    {
      var srcIndex, resultIndex := from, at;
      while srcIndex < |src|
        invariant from <= srcIndex <= |src| && resultIndex == at + (srcIndex - from)
        invariant list[..resultIndex] == old(list[..at]) + src[from..srcIndex]
        invariant list[resultIndex..] == old(list[resultIndex..])
      {
        list[resultIndex] := src[srcIndex];
        resultIndex, srcIndex := resultIndex + 1, srcIndex + 1;
      }
      return resultIndex;
    }
  }
}
