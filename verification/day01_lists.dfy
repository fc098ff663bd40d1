/** Day 1: two columns of location ids. Challenge 1 pairs the i-th smallest
    left id with the i-th smallest right id and adds up the distances;
    challenge 2 weights every left id by its number of occurrences on the
    right. */
module LocationLists {
  import opened Seqs
  import opened Numbers

  datatype Lists = Lists(left: seq<int>, right: seq<int>)

  /** getLists: the first number of each line goes left, the second right.
      Each line is given already tokenised into its numbers. */
  function GetLists(lines: seq<seq<int>>): (r: Lists)
    requires forall i :: 0 <= i < |lines| ==> |lines[i]| >= 2
    ensures |r.left| == |lines| && |r.right| == |lines|
    ensures forall i :: 0 <= i < |lines| ==> r.left[i] == lines[i][0] && r.right[i] == lines[i][1]
  {
    if |lines| == 0 then Lists([], [])
    else
      var acc := GetLists(lines[..|lines| - 1]);
      var last := lines[|lines| - 1];
      Lists(acc.left + [last[0]], acc.right + [last[1]])
  }

  // ---------------------------------------------------------------------
  // Sorting (`sort((a, b) => a - b)`)

  predicate Sorted(s: seq<int>)
  {
    forall i, j :: 0 <= i < j < |s| ==> s[i] <= s[j]
  }

  function Insert(x: int, s: seq<int>): (r: seq<int>)
    requires Sorted(s)
    ensures Sorted(r)
    ensures multiset(r) == multiset(s) + multiset{x}
    ensures |r| == |s| + 1
    ensures forall i :: 0 <= i < |r| ==> r[i] == x || r[i] in s
  {
    if |s| == 0 then [x]
    else if x <= s[0] then [x] + s
    else
      assert s == [s[0]] + s[1..];
      var t := Insert(x, s[1..]);
      assert forall i :: 0 <= i < |t| ==> s[0] <= t[i];
      [s[0]] + t
  }

  function Sort(s: seq<int>): (r: seq<int>)
    ensures Sorted(r)
    ensures multiset(r) == multiset(s)
    ensures |r| == |s|
  {
    if |s| == 0 then []
    else
      assert s == [s[0]] + s[1..];
      Insert(s[0], Sort(s[1..]))
  }

  /** A multiset has exactly one sorted arrangement. */
  lemma {:induction false} SortedUnique(a: seq<int>, b: seq<int>)
    requires Sorted(a) && Sorted(b)
    requires multiset(a) == multiset(b)
    ensures a == b
  {
    assert |a| == |multiset(a)| == |multiset(b)| == |b|;
    if |a| > 0 {
      assert a[0] in multiset(b);
      assert b[0] in multiset(a);
      var i :| 0 <= i < |b| && b[i] == a[0];
      var j :| 0 <= j < |a| && a[j] == b[0];
      assert b[0] <= b[i];
      assert a[0] <= a[j];
      assert a[0] == b[0];
      assert a == [a[0]] + a[1..];
      assert b == [b[0]] + b[1..];
      assert multiset(a) == multiset{a[0]} + multiset(a[1..]);
      assert multiset(b) == multiset{b[0]} + multiset(b[1..]);
      assert multiset(a[1..]) == multiset(a) - multiset{a[0]};
      assert multiset(b[1..]) == multiset(b) - multiset{b[0]};
      assert Sorted(a[1..]);
      assert Sorted(b[1..]);
      SortedUnique(a[1..], b[1..]);
    }
  }

  /** Sorting forgets the original order: equal multisets sort alike. */
  lemma SortDependsOnlyOnMultiset(a: seq<int>, b: seq<int>)
    requires multiset(a) == multiset(b)
    ensures Sort(a) == Sort(b)
  {
    SortedUnique(Sort(a), Sort(b));
  }

  // ---------------------------------------------------------------------
  // Challenge 1

  /** Sum of `|a[i] - b[i]|` over the indices of `a`. */
  function SumAbsDiff(a: seq<int>, b: seq<int>): int
    requires |a| <= |b|
  {
    if |a| == 0 then 0 else Abs(a[0] - b[0]) + SumAbsDiff(a[1..], b[1..])
  }

  lemma {:induction false} SumAbsDiffNonNegative(a: seq<int>, b: seq<int>)
    requires |a| <= |b|
    ensures SumAbsDiff(a, b) >= 0
  {
    if |a| > 0 {
      SumAbsDiffNonNegative(a[1..], b[1..]);
    }
  }

  lemma {:induction false} SumAbsDiffSelf(a: seq<int>)
    ensures SumAbsDiff(a, a) == 0
  {
    if |a| > 0 {
      SumAbsDiffSelf(a[1..]);
    }
  }

  lemma {:induction false} SumAbsDiffSymmetric(a: seq<int>, b: seq<int>)
    requires |a| == |b|
    ensures SumAbsDiff(a, b) == SumAbsDiff(b, a)
  {
    if |a| > 0 {
      SumAbsDiffSymmetric(a[1..], b[1..]);
    }
  }

  /** getDifference: both columns sorted, then the distances of the pairs
      added up. A shorter right column would read `undefined`. */
  function GetDifference(lists: Lists): int
    requires |lists.left| <= |lists.right|
  {
    SumAbsDiff(Sort(lists.left), Sort(lists.right))
  }

  lemma DifferenceNonNegative(lists: Lists)
    requires |lists.left| <= |lists.right|
    ensures GetDifference(lists) >= 0
  {
    SumAbsDiffNonNegative(Sort(lists.left), Sort(lists.right));
  }

  /** Two columns holding the same ids, in any order, are at distance 0. */
  lemma DifferenceOfSameMultisetIsZero(lists: Lists)
    requires multiset(lists.left) == multiset(lists.right)
    ensures |lists.left| == |lists.right|
    ensures GetDifference(lists) == 0
  {
    assert |lists.left| == |multiset(lists.left)| == |multiset(lists.right)| == |lists.right|;
    SortDependsOnlyOnMultiset(lists.left, lists.right);
    SumAbsDiffSelf(Sort(lists.left));
  }

  /** Swapping the columns does not change the distance. */
  lemma DifferenceSymmetric(left: seq<int>, right: seq<int>)
    requires |left| == |right|
    ensures GetDifference(Lists(left, right)) == GetDifference(Lists(right, left))
  {
    SumAbsDiffSymmetric(Sort(left), Sort(right));
  }

  /** Reordering either column does not change the distance. */
  lemma DifferenceOrderIndependent(lists: Lists, left': seq<int>, right': seq<int>)
    requires |lists.left| <= |lists.right|
    requires multiset(left') == multiset(lists.left)
    requires multiset(right') == multiset(lists.right)
    ensures |left'| <= |right'|
    ensures GetDifference(Lists(left', right')) == GetDifference(lists)
  {
    assert |left'| == |multiset(left')| && |right'| == |multiset(right')|;
    SortDependsOnlyOnMultiset(left', lists.left);
    SortDependsOnlyOnMultiset(right', lists.right);
  }

  // ---------------------------------------------------------------------
  // Challenge 2

  /** getNumberOfOccurrences: each value of the list mapped to its count. */
  function GetNumberOfOccurrences(list: seq<int>): (m: map<int, nat>)
    ensures forall n :: n in m <==> n in list
    ensures forall n :: n in m ==> m[n] == multiset(list)[n]
  {
    if |list| == 0 then map[]
    else
      var init := list[..|list| - 1];
      var x := list[|list| - 1];
      assert list == init + [x];
      var acc := GetNumberOfOccurrences(init);
      acc[x := if x in acc then acc[x] + 1 else 1]
  }

  /** The counts of the keys in `keys` (absent keys count 0). */
  function SumCounts(keys: seq<int>, m: map<int, nat>): int
  {
    if |keys| == 0 then 0
    else (if keys[0] in m then m[keys[0]] else 0) + SumCounts(keys[1..], m)
  }

  lemma {:induction false} SumCountsIgnoresOtherKeys(keys: seq<int>, m: map<int, nat>, x: int, v: nat)
    requires x !in keys
    ensures SumCounts(keys, m[x := v]) == SumCounts(keys, m)
  {
    if |keys| > 0 {
      SumCountsIgnoresOtherKeys(keys[1..], m, x, v);
    }
  }

  lemma {:induction false} SumCountsIncrement(keys: seq<int>, m: map<int, nat>, x: int)
    requires NoDup(keys) && x in keys
    ensures SumCounts(keys, m[x := (if x in m then m[x] else 0) + 1]) == SumCounts(keys, m) + 1
  {
    if keys[0] == x {
      assert x !in keys[1..];
      SumCountsIgnoresOtherKeys(keys[1..], m, x, (if x in m then m[x] else 0) + 1);
    } else {
      SumCountsIncrement(keys[1..], m, x);
    }
  }

  lemma {:induction false} SumCountsAppend(keys: seq<int>, k: int, m: map<int, nat>)
    ensures SumCounts(keys + [k], m) == SumCounts(keys, m) + (if k in m then m[k] else 0)
  {
    if |keys| > 0 {
      assert (keys + [k])[1..] == keys[1..] + [k];
      SumCountsAppend(keys[1..], k, m);
    }
  }

  /** The counts, one per distinct value, add up to the length of the list. */
  lemma {:induction false} OccurrencesSumToLength(list: seq<int>)
    ensures SumCounts(Dedup(list), GetNumberOfOccurrences(list)) == |list|
  {
    if |list| > 0 {
      var init := list[..|list| - 1];
      var x := list[|list| - 1];
      var acc := GetNumberOfOccurrences(init);
      var keys := Dedup(init);
      OccurrencesSumToLength(init);
      if x in acc {
        assert x in keys;
        SumCountsIncrement(keys, acc, x);
      } else {
        assert x !in keys;
        SumCountsIgnoresOtherKeys(keys, acc, x, 1);
        SumCountsAppend(keys, x, acc[x := 1]);
      }
    }
  }

  /** Each left value weighted by its count in the map (`?? 0` when absent). */
  function WeightedSum(left: seq<int>, occurrences: map<int, nat>): int
  {
    if |left| == 0 then 0
    else left[0] * (if left[0] in occurrences then occurrences[left[0]] else 0)
         + WeightedSum(left[1..], occurrences)
  }

  /** getSimilarityScore. */
  function GetSimilarityScore(lists: Lists): int
  {
    WeightedSum(lists.left, GetNumberOfOccurrences(lists.right))
  }

  /** Reference: `n * (occurrences of n on the right)` summed over the left. */
  function SimilaritySpec(left: seq<int>, right: seq<int>): int
  {
    if |left| == 0 then 0
    else left[0] * multiset(right)[left[0]] + SimilaritySpec(left[1..], right)
  }

  lemma {:induction false} WeightedSumMatchesSpec(left: seq<int>, right: seq<int>)
    ensures WeightedSum(left, GetNumberOfOccurrences(right)) == SimilaritySpec(left, right)
  {
    if |left| > 0 {
      WeightedSumMatchesSpec(left[1..], right);
    }
  }

  /** The similarity score is the reference sum. */
  lemma SimilarityScoreIsSpec(lists: Lists)
    ensures GetSimilarityScore(lists) == SimilaritySpec(lists.left, lists.right)
  {
    WeightedSumMatchesSpec(lists.left, lists.right);
  }

  lemma {:induction false} SimilaritySpecEmptyRight(left: seq<int>)
    ensures SimilaritySpec(left, []) == 0
  {
    if |left| > 0 {
      SimilaritySpecEmptyRight(left[1..]);
    }
  }

  /** An empty right column scores 0. */
  lemma SimilarityEmptyRight(left: seq<int>)
    ensures GetSimilarityScore(Lists(left, [])) == 0
  {
    SimilarityScoreIsSpec(Lists(left, []));
    SimilaritySpecEmptyRight(left);
  }

  lemma {:induction false} SimilaritySpecAppend(a: seq<int>, b: seq<int>, right: seq<int>)
    ensures SimilaritySpec(a + b, right) == SimilaritySpec(a, right) + SimilaritySpec(b, right)
  {
    if |a| == 0 {
      assert a + b == b;
    } else {
      assert (a + b)[1..] == a[1..] + b;
      SimilaritySpecAppend(a[1..], b, right);
    }
  }

  lemma {:induction false} SimilaritySpecPermutation(s: seq<int>, t: seq<int>, right: seq<int>)
    requires multiset(s) == multiset(t)
    ensures SimilaritySpec(s, right) == SimilaritySpec(t, right)
    decreases |s|
  {
    assert |s| == |multiset(s)| == |multiset(t)| == |t|;
    if |s| > 0 {
      var x := s[0];
      assert x in multiset(t);
      var k :| 0 <= k < |t| && t[k] == x;
      var rest := t[..k] + t[k + 1..];
      assert t == t[..k] + [x] + t[k + 1..];
      assert s == [x] + s[1..];
      assert multiset(t) == multiset(t[..k]) + multiset{x} + multiset(t[k + 1..]);
      assert multiset(s) == multiset{x} + multiset(s[1..]);
      assert multiset(rest) == multiset(t[..k]) + multiset(t[k + 1..]);
      assert multiset(rest) == multiset(t) - multiset{x};
      assert multiset(s[1..]) == multiset(s) - multiset{x};
      SimilaritySpecPermutation(s[1..], rest, right);
      SimilaritySpecAppend(t[..k] + [x], t[k + 1..], right);
      SimilaritySpecAppend(t[..k], [x], right);
      SimilaritySpecAppend(t[..k], t[k + 1..], right);
    }
  }

  /** The score ignores the order of both columns. */
  lemma SimilarityOrderIndependent(lists: Lists, left': seq<int>, right': seq<int>)
    requires multiset(left') == multiset(lists.left)
    requires multiset(right') == multiset(lists.right)
    ensures GetSimilarityScore(Lists(left', right')) == GetSimilarityScore(lists)
  {
    SimilarityScoreIsSpec(lists);
    SimilarityScoreIsSpec(Lists(left', right'));
    SimilaritySpecPermutation(left', lists.left, right');
    SpecRightMultiset(lists.left, right', lists.right);
  }

  lemma {:induction false} SpecRightMultiset(left: seq<int>, r: seq<int>, r': seq<int>)
    requires multiset(r) == multiset(r')
    ensures SimilaritySpec(left, r) == SimilaritySpec(left, r')
  {
    if |left| > 0 {
      SpecRightMultiset(left[1..], r, r');
    }
  }
}
