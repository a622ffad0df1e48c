/** `TieredMergePolicy` (src/storage/merge_policy.rs): when to merge segments and
    which small segments to merge together. */
module MergePolicy {
  import opened Base
  import opened Types

  datatype TieredMergePolicy = TieredMergePolicy(
    maxSegmentsPerTier: nat,
    maxSegmentSizeMb: nat,
    minSegmentsToMerge: nat,
    maxSegmentsToMerge: nat)

  /** `TieredMergePolicy::default()`. */
  const DefaultPolicy := TieredMergePolicy(10, 512, 2, 10)

  /** Segments below 10 MiB count as small. */
  const SMALL_SEGMENT_BYTES: nat := 10 * 1024 * 1024

  const MIB: nat := 1024 * 1024

  function Size(s: Segment): nat { s.metadata.sizeBytes }

  /** The small segments, in order. */
  function SmallSegments(segments: seq<Segment>): (r: seq<Segment>)
    ensures |r| <= |segments|
    ensures forall s :: s in r <==> s in segments && Size(s) < SMALL_SEGMENT_BYTES
  {
    if segments == [] then []
    else (if Size(segments[0]) < SMALL_SEGMENT_BYTES then [segments[0]] else []) + SmallSegments(segments[1..])
  }

  /** `should_merge`: too many segments, or enough small ones. */
  function ShouldMerge(policy: TieredMergePolicy, segments: seq<Segment>): (r: bool)
    ensures |segments| > policy.maxSegmentsPerTier ==> r
    ensures |segments| <= policy.maxSegmentsPerTier ==>
              (r <==> |SmallSegments(segments)| >= policy.minSegmentsToMerge)
  {
    if |segments| > policy.maxSegmentsPerTier then true
    else |SmallSegments(segments)| >= policy.minSegmentsToMerge
  }

  /** Enough small segments trigger a merge whatever the segment count. */
  lemma ManySmallMerge(policy: TieredMergePolicy, segments: seq<Segment>)
    requires |SmallSegments(segments)| >= policy.minSegmentsToMerge
    ensures ShouldMerge(policy, segments)
  {
  }

  // ---------------------------------------------------------------------
  // The stable sort by size
  // ---------------------------------------------------------------------

  predicate SortedBySize(s: seq<Segment>)
  {
    forall i, j :: 0 <= i < j < |s| ==> Size(s[i]) <= Size(s[j])
  }

  /** Puts `x` after every segment of `s` no larger than it. */
  function InsertBySize(x: Segment, s: seq<Segment>): (r: seq<Segment>)
    ensures multiset(r) == multiset(s) + multiset{x}
    ensures |r| == |s| + 1
  {
    if s == [] then [x]
    else if Size(x) < Size(s[0]) then [x] + s
    else
      assert s == [s[0]] + s[1..];
      [s[0]] + InsertBySize(x, s[1..])
  }

  /** A segment no larger than any of a sorted sequence can go in front. */
  lemma PrependSorted(a: Segment, s: seq<Segment>)
    requires SortedBySize(s) && forall y :: y in s ==> Size(a) <= Size(y)
    ensures SortedBySize([a] + s)
  {
    var r := [a] + s;
    forall i, j | 0 <= i < j < |r|
      ensures Size(r[i]) <= Size(r[j])
    {
      assert r[j] == s[j - 1] && s[j - 1] in s;
      if i > 0 {
        assert r[i] == s[i - 1];
      }
    }
  }

  lemma {:induction false} InsertSorted(x: Segment, s: seq<Segment>)
    requires SortedBySize(s)
    ensures SortedBySize(InsertBySize(x, s))
    decreases |s|
  {
    if s != [] {
      forall y | y in s
        ensures Size(s[0]) <= Size(y)
      {
        var k :| 0 <= k < |s| && s[k] == y;
      }
      if Size(x) < Size(s[0]) {
        PrependSorted(x, s);
      } else {
        var rest := InsertBySize(x, s[1..]);
        InsertSorted(x, s[1..]);
        forall y | y in rest
          ensures Size(s[0]) <= Size(y)
        {
          assert y in multiset(rest);
          if y != x {
            assert y in multiset(s[1..]);
            assert y in s;
          }
        }
        PrependSorted(s[0], rest);
      }
    }
  }

  /** `sort_by_key` on the size: a stable insertion sort. */
  function SortBySize(s: seq<Segment>): (r: seq<Segment>)
    ensures multiset(r) == multiset(s) && |r| == |s|
  {
    if s == [] then []
    else
      assert s == s[..|s| - 1] + [s[|s| - 1]];
      InsertBySize(s[|s| - 1], SortBySize(s[..|s| - 1]))
  }

  lemma {:induction false} SortBySizeSorted(s: seq<Segment>)
    ensures SortedBySize(SortBySize(s))
    decreases |s|
  {
    if s != [] {
      SortBySizeSorted(s[..|s| - 1]);
      InsertSorted(s[|s| - 1], SortBySize(s[..|s| - 1]));
    }
  }

  // ---------------------------------------------------------------------
  // Selection
  // ---------------------------------------------------------------------

  function TotalSize(s: seq<Segment>): nat
  {
    if s == [] then 0 else TotalSize(s[..|s| - 1]) + Size(s[|s| - 1])
  }

  /** The greedy scan of `select_segments_to_merge` from index `i` of the sorted
      segments with `acc` already picked: segments above half the merge size are
      skipped, the scan stops at the first segment that would overflow the merge
      size, and it stops once `maxCount` segments are picked. */
  function Greedy(sorted: seq<Segment>, i: nat, acc: seq<Segment>, maxMerge: nat, maxCount: nat): seq<Segment>
    requires i <= |sorted|
    decreases |sorted| - i
  {
    if i == |sorted| then acc
    else if Size(sorted[i]) > maxMerge / 2 then Greedy(sorted, i + 1, acc, maxMerge, maxCount)
    else if TotalSize(acc) + Size(sorted[i]) > maxMerge then acc
    else if |acc| + 1 >= maxCount then acc + [sorted[i]]
    else Greedy(sorted, i + 1, acc + [sorted[i]], maxMerge, maxCount)
  }

  /** What the scan picks comes from the segments: a sub-multiset of them. */
  lemma {:induction false} GreedySubset(sorted: seq<Segment>, i: nat, acc: seq<Segment>, maxMerge: nat, maxCount: nat)
    requires i <= |sorted| && multiset(acc) <= multiset(sorted[..i])
    ensures multiset(Greedy(sorted, i, acc, maxMerge, maxCount)) <= multiset(sorted)
    decreases |sorted| - i
  {
    if i == |sorted| {
      assert sorted[..i] == sorted;
    } else {
      var x := sorted[i];
      assert sorted[..i + 1] == sorted[..i] + [x];
      MultisetPrefix(sorted, i);
      MultisetPrefix(sorted, i + 1);
      if Size(x) > maxMerge / 2 {
        GreedySubset(sorted, i + 1, acc, maxMerge, maxCount);
      } else if TotalSize(acc) + Size(x) <= maxMerge && |acc| + 1 < maxCount {
        GreedySubset(sorted, i + 1, acc + [x], maxMerge, maxCount);
      }
    }
  }

  /** Appending a segment no smaller than any picked keeps the picks sorted. */
  lemma AppendSorted(acc: seq<Segment>, x: Segment)
    requires SortedBySize(acc) && forall s :: s in acc ==> Size(s) <= Size(x)
    ensures SortedBySize(acc + [x])
  {
    var r := acc + [x];
    forall a, b | 0 <= a < b < |r|
      ensures Size(r[a]) <= Size(r[b])
    {
      assert r[a] == acc[a] && acc[a] in acc;
      if b < |acc| {
        assert r[b] == acc[b];
      }
    }
  }

  /** The scan picks in ascending size order. */
  lemma {:induction false} GreedySorted(sorted: seq<Segment>, i: nat, acc: seq<Segment>, maxMerge: nat, maxCount: nat)
    requires i <= |sorted| && SortedBySize(sorted) && SortedBySize(acc)
    requires forall s, k :: s in acc && i <= k < |sorted| ==> Size(s) <= Size(sorted[k])
    ensures SortedBySize(Greedy(sorted, i, acc, maxMerge, maxCount))
    decreases |sorted| - i
  {
    if i < |sorted| {
      var x := sorted[i];
      if Size(x) > maxMerge / 2 {
        GreedySorted(sorted, i + 1, acc, maxMerge, maxCount);
      } else if TotalSize(acc) + Size(x) <= maxMerge {
        AppendSorted(acc, x);
        if |acc| + 1 < maxCount {
          forall s, k | s in acc + [x] && i + 1 <= k < |sorted|
            ensures Size(s) <= Size(sorted[k])
          {
            if s == x {
              assert Size(sorted[i]) <= Size(sorted[k]);
            }
          }
          GreedySorted(sorted, i + 1, acc + [x], maxMerge, maxCount);
        }
      }
    }
  }

  /** Each pick is at most half the merge size, the picks together fit in it, and no
      more than `maxCount` are picked (at least one is always allowed). */
  lemma {:induction false} GreedyLimits(sorted: seq<Segment>, i: nat, acc: seq<Segment>, maxMerge: nat, maxCount: nat)
    requires i <= |sorted|
    requires TotalSize(acc) <= maxMerge && forall s :: s in acc ==> Size(s) <= maxMerge / 2
    requires |acc| < Max(1, maxCount) || acc == []
    ensures var r := Greedy(sorted, i, acc, maxMerge, maxCount);
            TotalSize(r) <= maxMerge && (forall s :: s in r ==> Size(s) <= maxMerge / 2) &&
            |r| <= Max(1, maxCount)
    decreases |sorted| - i
  {
    if i < |sorted| {
      var x := sorted[i];
      if Size(x) > maxMerge / 2 {
        GreedyLimits(sorted, i + 1, acc, maxMerge, maxCount);
      } else if TotalSize(acc) + Size(x) <= maxMerge {
        assert (acc + [x])[..|acc|] == acc;
        if |acc| + 1 < maxCount {
          GreedyLimits(sorted, i + 1, acc + [x], maxMerge, maxCount);
        }
      }
    }
  }

  /** A prefix holds no more of each segment than the whole sequence. */
  lemma MultisetPrefix(s: seq<Segment>, i: nat)
    requires i <= |s|
    ensures multiset(s[..i]) <= multiset(s)
  {
    assert s == s[..i] + s[i..];
  }

  /** The scanning loop of `select_segments_to_merge`. */
  method Scan(policy: TieredMergePolicy, sorted: seq<Segment>) returns (selected: seq<Segment>)
    ensures selected == Greedy(sorted, 0, [], policy.maxSegmentSizeMb * MIB, policy.maxSegmentsToMerge)
  {
    var maxMergeSize := policy.maxSegmentSizeMb * MIB;
    selected := [];
    var currentSize := 0;
    var i := 0;
    while i < |sorted|
      invariant 0 <= i <= |sorted|
      invariant currentSize == TotalSize(selected)
      invariant Greedy(sorted, i, selected, maxMergeSize, policy.maxSegmentsToMerge) ==
                Greedy(sorted, 0, [], maxMergeSize, policy.maxSegmentsToMerge)
      decreases |sorted| - i
    {
      var segment := sorted[i];
      if Size(segment) > maxMergeSize / 2 {
        i := i + 1;
        continue;
      }
      if currentSize + Size(segment) > maxMergeSize {
        return;
      }
      assert (selected + [segment])[..|selected|] == selected;
      selected := selected + [segment];
      currentSize := currentSize + Size(segment);
      if |selected| >= policy.maxSegmentsToMerge {
        return;
      }
      i := i + 1;
    }
  }

  /** `select_segments_to_merge`: the greedy scan over the segments sorted by size,
      discarded when it picked fewer than `min_segments_to_merge`. */
  method SelectSegmentsToMerge(policy: TieredMergePolicy, segments: seq<Segment>) returns (selected: seq<Segment>)
    ensures multiset(selected) <= multiset(segments)
    ensures SortedBySize(selected)
    ensures forall s :: s in selected ==> Size(s) <= policy.maxSegmentSizeMb * MIB / 2
    ensures TotalSize(selected) <= policy.maxSegmentSizeMb * MIB
    ensures |selected| <= Max(1, policy.maxSegmentsToMerge)
    ensures selected == [] || |selected| >= policy.minSegmentsToMerge
    ensures var picked := Greedy(SortBySize(segments), 0, [], policy.maxSegmentSizeMb * MIB, policy.maxSegmentsToMerge);
            selected == if |picked| < policy.minSegmentsToMerge then [] else picked
  {
    var sorted := SortBySize(segments);
    SortBySizeSorted(segments);
    var scanned := Scan(policy, sorted);
    GreedySubset(sorted, 0, [], policy.maxSegmentSizeMb * MIB, policy.maxSegmentsToMerge);
    GreedySorted(sorted, 0, [], policy.maxSegmentSizeMb * MIB, policy.maxSegmentsToMerge);
    GreedyLimits(sorted, 0, [], policy.maxSegmentSizeMb * MIB, policy.maxSegmentsToMerge);
    if |scanned| < policy.minSegmentsToMerge {
      selected := [];
    } else {
      selected := scanned;
    }
  }
}
