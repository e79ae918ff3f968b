/** `mergeSortedArrays` from ArrayMergerDemo.java: the two-pointer merge of two
    `int[]`s, taking from `nums1` on ties. */
module ArrayMerger {

  predicate Sorted(s: seq<int>) {
    forall i, j :: 0 <= i < j < |s| ==> s[i] <= s[j]
  }

  /** The merge the method computes, one step of its first loop at a time: the
      smaller head goes first, and `nums1`'s head wins a tie. When one side is
      used up, the rest of the other follows (the two trailing loops). */
  function Merge(a: seq<int>, b: seq<int>): (r: seq<int>)
    ensures |r| == |a| + |b|
    decreases |a| + |b|
  {
    if a == [] then b
    else if b == [] then a
    else if a[0] <= b[0] then [a[0]] + Merge(a[1..], b)
    else [b[0]] + Merge(a, b[1..])
  }

  /** The merge loses and invents nothing: its multiset is the union of the inputs'. */
  lemma {:induction false} MergePermutes(a: seq<int>, b: seq<int>)
    ensures multiset(Merge(a, b)) == multiset(a) + multiset(b)
    decreases |a| + |b|
  {
    if a == [] || b == [] {
    } else if a[0] <= b[0] {
      var rest := Merge(a[1..], b);
      MergePermutes(a[1..], b);
      assert Merge(a, b) == [a[0]] + rest;
      assert a == [a[0]] + a[1..];
      assert multiset(a) == multiset{a[0]} + multiset(a[1..]);
    } else {
      var rest := Merge(a, b[1..]);
      MergePermutes(a, b[1..]);
      assert Merge(a, b) == [b[0]] + rest;
      assert b == [b[0]] + b[1..];
      assert multiset(b) == multiset{b[0]} + multiset(b[1..]);
    }
  }

  /** Where each element of `Merge(a, b)` comes from: true for `nums1`, false for `nums2`. */
  function Origins(a: seq<int>, b: seq<int>): (o: seq<bool>)
    ensures |o| == |a| + |b|
    decreases |a| + |b|
  {
    if a == [] then seq(|b|, _ => false)
    else if b == [] then seq(|a|, _ => true)
    else if a[0] <= b[0] then [true] + Origins(a[1..], b)
    else [false] + Origins(a, b[1..])
  }

  /** The elements of `s` at the positions where `o` says `side`, in order. */
  function Select(s: seq<int>, o: seq<bool>, side: bool): (r: seq<int>)
    requires |s| == |o|
    ensures |r| <= |s|
  {
    if s == [] then []
    else (if o[0] == side then [s[0]] else []) + Select(s[1..], o[1..], side)
  }

  lemma {:induction false} SelectAll(s: seq<int>, o: seq<bool>, side: bool)
    requires |s| == |o|
    requires forall i :: 0 <= i < |o| ==> o[i] == side
    ensures Select(s, o, side) == s
  {
    if s != [] {
      SelectAll(s[1..], o[1..], side);
    }
  }

  lemma {:induction false} SelectNone(s: seq<int>, o: seq<bool>, side: bool)
    requires |s| == |o|
    requires forall i :: 0 <= i < |o| ==> o[i] != side
    ensures Select(s, o, side) == []
  {
    if s != [] {
      SelectNone(s[1..], o[1..], side);
    }
  }

  /** The merge is an interleaving: the elements it takes from `nums1` are exactly
      `nums1`, in their original order, and likewise for `nums2`. */
  lemma {:induction false} MergeInterleaves(a: seq<int>, b: seq<int>)
    ensures Select(Merge(a, b), Origins(a, b), true) == a
    ensures Select(Merge(a, b), Origins(a, b), false) == b
    decreases |a| + |b|
  {
    var m, o := Merge(a, b), Origins(a, b);
    if a == [] {
      SelectNone(m, o, true);
      SelectAll(m, o, false);
    } else if b == [] {
      SelectAll(m, o, true);
      SelectNone(m, o, false);
    } else if a[0] <= b[0] {
      MergeInterleaves(a[1..], b);
      assert m[1..] == Merge(a[1..], b) && o[1..] == Origins(a[1..], b);
      assert a == [a[0]] + a[1..];
    } else {
      MergeInterleaves(a, b[1..]);
      assert m[1..] == Merge(a, b[1..]) && o[1..] == Origins(a, b[1..]);
      assert b == [b[0]] + b[1..];
    }
  }

  /** Every element taken from a side is an element of that side. */
  lemma {:induction false} OriginMember(a: seq<int>, b: seq<int>, q: int)
    requires 0 <= q < |a| + |b|
    ensures Origins(a, b)[q] ==> Merge(a, b)[q] in a
    ensures !Origins(a, b)[q] ==> Merge(a, b)[q] in b
    decreases |a| + |b|
  {
    if a == [] || b == [] {
    } else if a[0] <= b[0] {
      if q > 0 {
        OriginMember(a[1..], b, q - 1);
      }
    } else {
      if q > 0 {
        OriginMember(a, b[1..], q - 1);
      }
    }
  }

  /** The tie rule makes the merge stable: once an element of `nums2` has been
      output, no later element of equal value comes from `nums1`. Only `nums1`
      needs to be sorted for this. */
  lemma {:induction false} MergeStable(a: seq<int>, b: seq<int>, p: int, q: int)
    requires Sorted(a)
    requires 0 <= p < q < |a| + |b|
    requires Merge(a, b)[p] == Merge(a, b)[q] && !Origins(a, b)[p]
    ensures !Origins(a, b)[q]
    decreases |a| + |b|, 1
  {
    if a == [] {
      assert Origins(a, b)[q] == false;
    } else if b == [] {
      assert false;
    } else if a[0] <= b[0] {
      StableTakeFirst(a, b, p, q);
    } else {
      StableTakeSecond(a, b, p, q);
    }
  }

  /** MergeStable when the merge starts with `nums1`'s head. */
  lemma {:induction false} StableTakeFirst(a: seq<int>, b: seq<int>, p: int, q: int)
    requires Sorted(a) && a != [] && b != [] && a[0] <= b[0]
    requires 0 <= p < q < |a| + |b|
    requires Merge(a, b)[p] == Merge(a, b)[q] && !Origins(a, b)[p]
    ensures !Origins(a, b)[q]
    decreases |a| + |b|, 0
  {
    var m, o := Merge(a[1..], b), Origins(a[1..], b);
    assert Merge(a, b) == [a[0]] + m && Origins(a, b) == [true] + o;
    assert m[p - 1] == m[q - 1] && !o[p - 1];
    SortedTail(a);
    MergeStable(a[1..], b, p - 1, q - 1);
    assert Origins(a, b)[q] == o[q - 1];
  }

  /** MergeStable when the merge starts with `nums2`'s head. */
  lemma {:induction false} StableTakeSecond(a: seq<int>, b: seq<int>, p: int, q: int)
    requires Sorted(a) && a != [] && b != [] && b[0] < a[0]
    requires 0 <= p < q < |a| + |b|
    requires Merge(a, b)[p] == Merge(a, b)[q] && !Origins(a, b)[p]
    ensures !Origins(a, b)[q]
    decreases |a| + |b|, 0
  {
    var m, o := Merge(a, b[1..]), Origins(a, b[1..]);
    assert Merge(a, b) == [b[0]] + m && Origins(a, b) == [false] + o;
    if p == 0 {
      StableHead(a, b, m, o, q);
    } else {
      assert m[p - 1] == m[q - 1] && !o[p - 1];
      MergeStable(a, b[1..], p - 1, q - 1);
    }
    assert Origins(a, b)[q] == o[q - 1];
  }

  lemma SortedTail(s: seq<int>)
    requires Sorted(s) && s != []
    ensures Sorted(s[1..])
  {
    forall i, j | 0 <= i < j < |s| - 1
      ensures s[1..][i] <= s[1..][j]
    {
      assert s[1..][i] == s[i + 1] && s[1..][j] == s[j + 1];
    }
  }

  /** The case of MergeStable where the equal element of `nums2` was output
      first: it is below every element of `nums1`. */
  lemma StableHead(a: seq<int>, b: seq<int>, m: seq<int>, o: seq<bool>, q: int)
    requires Sorted(a) && a != [] && b != [] && b[0] < a[0]
    requires m == Merge(a, b[1..]) && o == Origins(a, b[1..])
    requires 0 < q <= |m| && m[q - 1] == b[0]
    ensures !o[q - 1]
  {
    assert b[0] !in a by {
      forall y | y in a ensures a[0] <= y {
        var k :| 0 <= k < |a| && a[k] == y;
        assert k == 0 || a[0] <= a[k];
      }
    }
    OriginMember(a, b[1..], q - 1);
  }

  /** Every element of `Merge(a, b)` is at least `lo` when every input element is. */
  lemma {:induction false} MergeLowerBound(a: seq<int>, b: seq<int>, lo: int)
    requires forall i :: 0 <= i < |a| ==> lo <= a[i]
    requires forall i :: 0 <= i < |b| ==> lo <= b[i]
    ensures forall i :: 0 <= i < |Merge(a, b)| ==> lo <= Merge(a, b)[i]
  {
    var m := Merge(a, b);
    MergePermutes(a, b);
    forall i | 0 <= i < |m|
      ensures lo <= m[i]
    {
      assert m[i] in multiset(m);
    }
  }

  /** Merging two sorted inputs gives a sorted result. */
  lemma {:induction false} MergeSorted(a: seq<int>, b: seq<int>)
    requires Sorted(a) && Sorted(b)
    ensures Sorted(Merge(a, b))
    decreases |a| + |b|
  {
    if a == [] || b == [] {
    } else if a[0] <= b[0] {
      MergeSorted(a[1..], b);
      MergeLowerBound(a[1..], b, a[0]);
    } else {
      MergeSorted(a, b[1..]);
      MergeLowerBound(a, b[1..], b[0]);
    }
  }

  /** An empty side leaves the other unchanged. */
  lemma MergeEmpty(a: seq<int>, b: seq<int>)
    ensures Merge(a, []) == a && Merge([], b) == b
  {
  }

  /** When `nums1`'s current head is taken, the output so far grows by it and
      the rest of the merge follows. */
  lemma TakeFirst(a: seq<int>, b: seq<int>, i: int, j: int, merged: seq<int>, total: seq<int>)
    requires 0 <= i < |a| && 0 <= j <= |b| && (j == |b| || a[i] <= b[j])
    requires merged + Merge(a[i..], b[j..]) == total
    ensures (merged + [a[i]]) + Merge(a[i + 1..], b[j..]) == total
  {
    var x, y := a[i..], b[j..];
    assert x[0] == a[i] && x[1..] == a[i + 1..];
    if y == [] {
      assert Merge(x, y) == x == [a[i]] + x[1..] && Merge(x[1..], y) == x[1..];
    } else {
      assert Merge(x, y) == [x[0]] + Merge(x[1..], y);
    }
    var rest := Merge(a[i + 1..], b[j..]);
    assert merged + ([a[i]] + rest) == (merged + [a[i]]) + rest;
  }

  /** When `nums2`'s current head is taken, the output so far grows by it and
      the rest of the merge follows. */
  lemma TakeSecond(a: seq<int>, b: seq<int>, i: int, j: int, merged: seq<int>, total: seq<int>)
    requires 0 <= i <= |a| && 0 <= j < |b| && (i == |a| || a[i] > b[j])
    requires merged + Merge(a[i..], b[j..]) == total
    ensures (merged + [b[j]]) + Merge(a[i..], b[j + 1..]) == total
  {
    var x, y := a[i..], b[j..];
    assert y[0] == b[j] && y[1..] == b[j + 1..];
    if x == [] {
      assert Merge(x, y) == y == [b[j]] + y[1..] && Merge(x, y[1..]) == y[1..];
    } else {
      assert Merge(x, y) == [y[0]] + Merge(x, y[1..]);
    }
    var rest := Merge(a[i..], b[j + 1..]);
    assert merged + ([b[j]] + rest) == (merged + [b[j]]) + rest;
  }

  /** Once both sides are used up, the output is the whole merge. */
  lemma MergeDone(a: seq<int>, b: seq<int>, i: int, j: int, merged: seq<int>, total: seq<int>)
    requires i == |a| && j == |b| && merged + Merge(a[i..], b[j..]) == total
    ensures merged == total
  {
    assert a[i..] == [] && b[j..] == [];
    assert merged + [] == merged;
  }

  /** `mergeSortedArrays`: the three loops, appending to `merged`, then the
      copy into a new `int[]`. */
  method MergeSortedArrays(nums1: array<int>, nums2: array<int>) returns (result: array<int>)
    ensures fresh(result)
    ensures result[..] == Merge(nums1[..], nums2[..])
  {
    ghost var a, b := nums1[..], nums2[..];
    ghost var total := Merge(a, b);
    var i, j := 0, 0;
    var merged: seq<int> := [];
    while i < nums1.Length && j < nums2.Length
      invariant 0 <= i <= |a| && 0 <= j <= |b|
      invariant merged + Merge(a[i..], b[j..]) == total
      decreases |a| - i + |b| - j
    {
      if nums1[i] <= nums2[j] {
        TakeFirst(a, b, i, j, merged, total);
        merged := merged + [nums1[i]];
        i := i + 1;
      } else {
        TakeSecond(a, b, i, j, merged, total);
        merged := merged + [nums2[j]];
        j := j + 1;
      }
    }
    while i < nums1.Length
      invariant 0 <= i <= |a| && (i < |a| ==> j == |b|)
      invariant merged + Merge(a[i..], b[j..]) == total
    {
      TakeFirst(a, b, i, j, merged, total);
      merged := merged + [nums1[i]];
      i := i + 1;
    }
    while j < nums2.Length
      invariant 0 <= j <= |b| && i == |a|
      invariant merged + Merge(a[i..], b[j..]) == total
    {
      TakeSecond(a, b, i, j, merged, total);
      merged := merged + [nums2[j]];
      j := j + 1;
    }
    MergeDone(a, b, i, j, merged, total);
    result := new int[|merged|](k requires 0 <= k < |merged| => merged[k]);
  }

  /** The merge in `main`: {1, 3, 5, 7} and {2, 4, 6, 8} give 1 to 8. */
  lemma MergeExample()
    ensures Merge([1, 3, 5, 7], [2, 4, 6, 8]) == [1, 2, 3, 4, 5, 6, 7, 8]
  {
    MergeExampleTail();
    assert Merge([5, 7], [4, 6, 8]) == [4] + Merge([5, 7], [6, 8]);
    assert Merge([3, 5, 7], [4, 6, 8]) == [3] + Merge([5, 7], [4, 6, 8]);
    assert Merge([3, 5, 7], [2, 4, 6, 8]) == [2] + Merge([3, 5, 7], [4, 6, 8]);
    assert Merge([1, 3, 5, 7], [2, 4, 6, 8]) == [1] + Merge([3, 5, 7], [2, 4, 6, 8]);
  }

  lemma MergeExampleTail()
    ensures Merge([5, 7], [6, 8]) == [5, 6, 7, 8]
  {
    assert Merge([7], [8]) == [7] + Merge([], [8]);
    assert Merge([7], [6, 8]) == [6] + Merge([7], [8]);
    assert Merge([5, 7], [6, 8]) == [5] + Merge([7], [6, 8]);
  }

  /** The run in `main`. */
  method DemoRun() returns (merged: seq<int>)
    ensures merged == [1, 2, 3, 4, 5, 6, 7, 8]
  {
    var nums1 := new int[4];
    nums1[0], nums1[1], nums1[2], nums1[3] := 1, 3, 5, 7;
    var nums2 := new int[4];
    nums2[0], nums2[1], nums2[2], nums2[3] := 2, 4, 6, 8;
    assert nums1[..] == [1, 3, 5, 7] && nums2[..] == [2, 4, 6, 8];
    MergeExample();
    var result := MergeSortedArrays(nums1, nums2);
    merged := result[..];
  }
}
