/** `SimdOps::union_sorted` and `intersect_sorted` (src/simd/operation.rs): two-pointer
    merges of sorted doc-id lists, the intersection with an eight-element skip. */
module SortedSetOps {
  import opened Base

  /** The number of elements the intersection may skip at once. */
  const GALLOP_THRESHOLD: nat := 8

  // ---------------------------------------------------------------------
  // Union
  // ---------------------------------------------------------------------

  /** What the union's merge emits from positions `i` of `a` and `j` of `b` on: the
      smaller head first, an equal pair once, then whatever is left of `a`, then
      whatever is left of `b`. */
  function UnionFrom(a: seq<U32>, b: seq<U32>, i: nat, j: nat): seq<U32>
    requires i <= |a| && j <= |b|
    decreases |a| - i + |b| - j
  {
    if i < |a| && j < |b| then
      if a[i] < b[j] then [a[i]] + UnionFrom(a, b, i + 1, j)
      else if a[i] > b[j] then [b[j]] + UnionFrom(a, b, i, j + 1)
      else [a[i]] + UnionFrom(a, b, i + 1, j + 1)
    else if i < |a| then [a[i]] + UnionFrom(a, b, i + 1, j)
    else if j < |b| then [b[j]] + UnionFrom(a, b, i, j + 1)
    else []
  }

  lemma {:induction false} UnionLength(a: seq<U32>, b: seq<U32>, i: nat, j: nat)
    requires i <= |a| && j <= |b|
    ensures |UnionFrom(a, b, i, j)| <= |a| - i + |b| - j
    decreases |a| - i + |b| - j
  {
    if i < |a| || j < |b| {
      var next := UnionNext(a, b, i, j);
      UnionLength(a, b, next.0, next.1);
    }
  }

  /** Where the union's merge goes on from after emitting one element. */
  function UnionNext(a: seq<U32>, b: seq<U32>, i: nat, j: nat): (r: (nat, nat))
    requires i <= |a| && j <= |b| && (i < |a| || j < |b|)
    ensures i <= r.0 <= |a| && j <= r.1 <= |b| && r.0 + r.1 > i + j
    ensures |UnionFrom(a, b, i, j)| == 1 + |UnionFrom(a, b, r.0, r.1)|
  {
    if i < |a| && (j == |b| || a[i] < b[j]) then (i + 1, j)
    else if i == |a| || a[i] > b[j] then (i, j + 1)
    else (i + 1, j + 1)
  }

  /** The union holds exactly the elements of both remainders. */
  lemma {:induction false} UnionMembers(a: seq<U32>, b: seq<U32>, i: nat, j: nat)
    requires i <= |a| && j <= |b|
    ensures forall x :: x in UnionFrom(a, b, i, j) <==> x in a[i..] || x in b[j..]
    decreases |a| - i + |b| - j
  {
    if i < |a| {
      assert a[i..] == [a[i]] + a[i + 1..];
    }
    if j < |b| {
      assert b[j..] == [b[j]] + b[j + 1..];
    }
    if i < |a| && j < |b| {
      if a[i] < b[j] {
        UnionMembers(a, b, i + 1, j);
      } else if a[i] > b[j] {
        UnionMembers(a, b, i, j + 1);
      } else {
        UnionMembers(a, b, i + 1, j + 1);
      }
    } else if i < |a| {
      UnionMembers(a, b, i + 1, j);
    } else if j < |b| {
      UnionMembers(a, b, i, j + 1);
    }
  }

  /** Every element after index `i` of a strictly ascending list is above `a[i]`. */
  lemma AboveHead(a: seq<U32>, i: nat, rest: seq<U32>)
    requires StrictlyAscending(a) && i < |a| && rest == a[i + 1..]
    ensures forall x :: x in rest ==> a[i] < x
  {
    forall x | x in rest
      ensures a[i] < x
    {
      var m :| 0 <= m < |rest| && rest[m] == x;
      assert a[i + 1 + m] == x;
    }
  }

  /** A head below every element of a strictly ascending list keeps it strictly
      ascending. */
  lemma PrependAscending(x: U32, s: seq<U32>)
    requires StrictlyAscending(s) && forall y :: y in s ==> x < y
    ensures StrictlyAscending([x] + s)
  {
    var r := [x] + s;
    forall p, q | 0 <= p < q < |r|
      ensures r[p] < r[q]
    {
      assert r[q] == s[q - 1] && s[q - 1] in s;
      if p > 0 {
        assert r[p] == s[p - 1];
      }
    }
  }

  lemma {:induction false} UnionAscending(a: seq<U32>, b: seq<U32>, i: nat, j: nat)
    requires StrictlyAscending(a) && StrictlyAscending(b) && i <= |a| && j <= |b|
    ensures StrictlyAscending(UnionFrom(a, b, i, j))
    decreases |a| - i + |b| - j
  {
    if i < |a| {
      AboveHead(a, i, a[i + 1..]);
      assert a[i..] == [a[i]] + a[i + 1..];
    }
    if j < |b| {
      AboveHead(b, j, b[j + 1..]);
      assert b[j..] == [b[j]] + b[j + 1..];
    }
    if i < |a| && (j == |b| || a[i] < b[j]) {
      UnionAscending(a, b, i + 1, j);
      UnionMembers(a, b, i + 1, j);
      PrependAscending(a[i], UnionFrom(a, b, i + 1, j));
    } else if j < |b| && (i == |a| || a[i] > b[j]) {
      UnionAscending(a, b, i, j + 1);
      UnionMembers(a, b, i, j + 1);
      PrependAscending(b[j], UnionFrom(a, b, i, j + 1));
    } else if i < |a| && j < |b| {
      UnionAscending(a, b, i + 1, j + 1);
      UnionMembers(a, b, i + 1, j + 1);
      PrependAscending(a[i], UnionFrom(a, b, i + 1, j + 1));
    }
  }

  /** `union_sorted`. */
  method Union(a: seq<U32>, b: seq<U32>) returns (result: seq<U32>)
    ensures result == UnionFrom(a, b, 0, 0)
    ensures |result| <= |a| + |b|
    ensures forall x :: x in result <==> x in a || x in b
    ensures StrictlyAscending(a) && StrictlyAscending(b) ==> StrictlyAscending(result)
  {
    result := [];
    var i: nat, j: nat := 0, 0;
    ghost var whole := UnionFrom(a, b, 0, 0);
    while i < |a| && j < |b|
      invariant i <= |a| && j <= |b|
      invariant result + UnionFrom(a, b, i, j) == whole
      decreases |a| - i + |b| - j
    {
      if a[i] < b[j] {
        Assoc(result, a[i], UnionFrom(a, b, i + 1, j));
        result := result + [a[i]];
        i := i + 1;
      } else if a[i] > b[j] {
        Assoc(result, b[j], UnionFrom(a, b, i, j + 1));
        result := result + [b[j]];
        j := j + 1;
      } else {
        Assoc(result, a[i], UnionFrom(a, b, i + 1, j + 1));
        result := result + [a[i]];
        i := i + 1;
        j := j + 1;
      }
    }
    while i < |a|
      invariant i <= |a| && j <= |b| && (i == |a| || j == |b|)
      invariant result + UnionFrom(a, b, i, j) == whole
      decreases |a| - i
    {
      Assoc(result, a[i], UnionFrom(a, b, i + 1, j));
      result := result + [a[i]];
      i := i + 1;
    }
    while j < |b|
      invariant i == |a| && j <= |b|
      invariant result + UnionFrom(a, b, i, j) == whole
      decreases |b| - j
    {
      Assoc(result, b[j], UnionFrom(a, b, i, j + 1));
      result := result + [b[j]];
      j := j + 1;
    }
    UnionFacts(a, b);
  }

  /** Moving one element from the front of the rest to the end of the output. */
  lemma Assoc(out: seq<U32>, x: U32, rest: seq<U32>)
    ensures out + ([x] + rest) == (out + [x]) + rest
  {
  }

  /** What the whole union holds: no more than both inputs, exactly their elements,
      and an ascending list when both inputs are. */
  lemma UnionFacts(a: seq<U32>, b: seq<U32>)
    ensures |UnionFrom(a, b, 0, 0)| <= |a| + |b|
    ensures forall x :: x in UnionFrom(a, b, 0, 0) <==> x in a || x in b
    ensures StrictlyAscending(a) && StrictlyAscending(b) ==> StrictlyAscending(UnionFrom(a, b, 0, 0))
  {
    assert a[0..] == a && b[0..] == b;
    UnionLength(a, b, 0, 0);
    UnionMembers(a, b, 0, 0);
    if StrictlyAscending(a) && StrictlyAscending(b) {
      UnionAscending(a, b, 0, 0);
    }
  }

  // ---------------------------------------------------------------------
  // Intersection
  // ---------------------------------------------------------------------

  /** The plain two-pointer intersection from positions `i` and `j` on. */
  function MergeFrom(a: seq<U32>, b: seq<U32>, i: nat, j: nat): seq<U32>
    requires i <= |a| && j <= |b|
    decreases |a| - i + |b| - j
  {
    if i < |a| && j < |b| then
      if a[i] < b[j] then MergeFrom(a, b, i + 1, j)
      else if a[i] > b[j] then MergeFrom(a, b, i, j + 1)
      else [a[i]] + MergeFrom(a, b, i + 1, j + 1)
    else []
  }

  /** Eight elements ahead exist in both lists. */
  predicate CanSkip(a: seq<U32>, b: seq<U32>, i: nat, j: nat)
  {
    i + GALLOP_THRESHOLD <= |a| && j + GALLOP_THRESHOLD <= |b|
  }

  /** The intersection as `intersect_sorted` computes it: when eight elements remain
      in both lists and the eighth of one is below the head of the other, those eight
      are skipped; otherwise one merge step. */
  function SkipMergeFrom(a: seq<U32>, b: seq<U32>, i: nat, j: nat): seq<U32>
    requires i <= |a| && j <= |b|
    decreases |a| - i + |b| - j
  {
    if i < |a| && j < |b| then
      if CanSkip(a, b, i, j) && a[i + GALLOP_THRESHOLD - 1] < b[j] then
        SkipMergeFrom(a, b, i + GALLOP_THRESHOLD, j)
      else if CanSkip(a, b, i, j) && b[j + GALLOP_THRESHOLD - 1] < a[i] then
        SkipMergeFrom(a, b, i, j + GALLOP_THRESHOLD)
      else if a[i] < b[j] then SkipMergeFrom(a, b, i + 1, j)
      else if a[i] > b[j] then SkipMergeFrom(a, b, i, j + 1)
      else [a[i]] + SkipMergeFrom(a, b, i + 1, j + 1)
    else []
  }

  /** Elements of `a` below the head of `b` are passed over one by one by the plain
      merge. */
  lemma {:induction false} AdvanceA(a: seq<U32>, b: seq<U32>, i: nat, j: nat, n: nat)
    requires i + n <= |a| && j < |b|
    requires forall m :: i <= m < i + n ==> a[m] < b[j]
    ensures MergeFrom(a, b, i, j) == MergeFrom(a, b, i + n, j)
    decreases n
  {
    if n > 0 {
      AdvanceA(a, b, i + 1, j, n - 1);
    }
  }

  lemma {:induction false} AdvanceB(a: seq<U32>, b: seq<U32>, i: nat, j: nat, n: nat)
    requires i < |a| && j + n <= |b|
    requires forall m :: j <= m < j + n ==> b[m] < a[i]
    ensures MergeFrom(a, b, i, j) == MergeFrom(a, b, i, j + n)
    decreases n
  {
    if n > 0 {
      AdvanceB(a, b, i, j + 1, n - 1);
    }
  }

  /** On ascending lists the skip never passes over a common element: the skipping
      merge equals the plain one. */
  lemma {:induction false} SkipAgrees(a: seq<U32>, b: seq<U32>, i: nat, j: nat)
    requires Ascending(a) && Ascending(b) && i <= |a| && j <= |b|
    ensures SkipMergeFrom(a, b, i, j) == MergeFrom(a, b, i, j)
    decreases |a| - i + |b| - j
  {
    if i < |a| && j < |b| {
      if CanSkip(a, b, i, j) && a[i + GALLOP_THRESHOLD - 1] < b[j] {
        SkipAgrees(a, b, i + GALLOP_THRESHOLD, j);
        assert forall m :: i <= m < i + GALLOP_THRESHOLD ==> a[m] <= a[i + GALLOP_THRESHOLD - 1];
        AdvanceA(a, b, i, j, GALLOP_THRESHOLD);
      } else if CanSkip(a, b, i, j) && b[j + GALLOP_THRESHOLD - 1] < a[i] {
        SkipAgrees(a, b, i, j + GALLOP_THRESHOLD);
        assert forall m :: j <= m < j + GALLOP_THRESHOLD ==> b[m] <= b[j + GALLOP_THRESHOLD - 1];
        AdvanceB(a, b, i, j, GALLOP_THRESHOLD);
      } else if a[i] < b[j] {
        SkipAgrees(a, b, i + 1, j);
      } else if a[i] > b[j] {
        SkipAgrees(a, b, i, j + 1);
      } else {
        SkipAgrees(a, b, i + 1, j + 1);
      }
    }
  }

  /** The plain merge keeps only elements of both remainders. */
  lemma {:induction false} MergeMembersIn(a: seq<U32>, b: seq<U32>, i: nat, j: nat)
    requires i <= |a| && j <= |b|
    ensures forall x :: x in MergeFrom(a, b, i, j) ==> x in a[i..] && x in b[j..]
    decreases |a| - i + |b| - j
  {
    if i < |a| && j < |b| {
      assert a[i..] == [a[i]] + a[i + 1..];
      assert b[j..] == [b[j]] + b[j + 1..];
      if a[i] < b[j] {
        MergeMembersIn(a, b, i + 1, j);
      } else if a[i] > b[j] {
        MergeMembersIn(a, b, i, j + 1);
      } else {
        MergeMembersIn(a, b, i + 1, j + 1);
      }
    }
  }

  /** On strictly ascending lists the plain merge keeps every common element. */
  lemma {:induction false} MergeKeepsCommon(a: seq<U32>, b: seq<U32>, i: nat, j: nat)
    requires StrictlyAscending(a) && StrictlyAscending(b) && i <= |a| && j <= |b|
    ensures forall x :: x in a[i..] && x in b[j..] ==> x in MergeFrom(a, b, i, j)
    decreases |a| - i + |b| - j
  {
    if i < |a| && j < |b| {
      AboveHead(a, i, a[i + 1..]);
      AboveHead(b, j, b[j + 1..]);
      assert a[i..] == [a[i]] + a[i + 1..];
      assert b[j..] == [b[j]] + b[j + 1..];
      if a[i] < b[j] {
        MergeKeepsCommon(a, b, i + 1, j);
      } else if a[i] > b[j] {
        MergeKeepsCommon(a, b, i, j + 1);
      } else {
        MergeKeepsCommon(a, b, i + 1, j + 1);
      }
    }
  }

  lemma {:induction false} MergeAscending(a: seq<U32>, b: seq<U32>, i: nat, j: nat)
    requires StrictlyAscending(a) && StrictlyAscending(b) && i <= |a| && j <= |b|
    ensures StrictlyAscending(MergeFrom(a, b, i, j))
    decreases |a| - i + |b| - j
  {
    if i < |a| && j < |b| {
      if a[i] < b[j] {
        MergeAscending(a, b, i + 1, j);
      } else if a[i] > b[j] {
        MergeAscending(a, b, i, j + 1);
      } else {
        MergeAscending(a, b, i + 1, j + 1);
        MergeMembersIn(a, b, i + 1, j + 1);
        AboveHead(a, i, a[i + 1..]);
        PrependAscending(a[i], MergeFrom(a, b, i + 1, j + 1));
      }
    }
  }

  /** What `intersect_sorted` returns. */
  function Intersected(a: seq<U32>, b: seq<U32>): (r: seq<U32>)
    ensures a == [] || b == [] ==> r == []
  {
    if a == [] || b == [] then [] else SkipMergeFrom(a, b, 0, 0)
  }

  /** On strictly ascending lists the intersection is the set intersection, strictly
      ascending, and equals the plain merge. */
  lemma IntersectedIsIntersection(a: seq<U32>, b: seq<U32>)
    requires StrictlyAscending(a) && StrictlyAscending(b)
    ensures Intersected(a, b) == MergeFrom(a, b, 0, 0)
    ensures forall x :: x in Intersected(a, b) <==> x in a && x in b
    ensures StrictlyAscending(Intersected(a, b))
  {
    SkipAgrees(a, b, 0, 0);
    MergeMembersIn(a, b, 0, 0);
    MergeKeepsCommon(a, b, 0, 0);
    MergeAscending(a, b, 0, 0);
    assert a[0..] == a && b[0..] == b;
  }

  /** `intersect_sorted`. */
  method Intersect(a: seq<U32>, b: seq<U32>) returns (result: seq<U32>)
    ensures result == Intersected(a, b)
    ensures Ascending(a) && Ascending(b) ==> result == MergeFrom(a, b, 0, 0)
    ensures StrictlyAscending(a) && StrictlyAscending(b) ==>
              (forall x :: x in result <==> x in a && x in b) && StrictlyAscending(result)
  {
    if a == [] || b == [] {
      return [];
    }
    result := [];
    var i: nat, j: nat := 0, 0;
    while i < |a| && j < |b|
      invariant i <= |a| && j <= |b|
      invariant result + SkipMergeFrom(a, b, i, j) == SkipMergeFrom(a, b, 0, 0)
      decreases |a| - i + |b| - j
    {
      if i + GALLOP_THRESHOLD <= |a| && j + GALLOP_THRESHOLD <= |b| {
        var maxA := a[i + GALLOP_THRESHOLD - 1];
        var minB := b[j];
        if maxA < minB {
          i := i + GALLOP_THRESHOLD;
          continue;
        }
        var maxB := b[j + GALLOP_THRESHOLD - 1];
        var minA := a[i];
        if maxB < minA {
          j := j + GALLOP_THRESHOLD;
          continue;
        }
      }
      if a[i] < b[j] {
        i := i + 1;
      } else if a[i] > b[j] {
        j := j + 1;
      } else {
        result := result + [a[i]];
        i := i + 1;
        j := j + 1;
      }
    }
    assert result == result + SkipMergeFrom(a, b, i, j);
    if Ascending(a) && Ascending(b) {
      SkipAgrees(a, b, 0, 0);
    }
    if StrictlyAscending(a) && StrictlyAscending(b) {
      IntersectedIsIntersection(a, b);
    }
  }
}
