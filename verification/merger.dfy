/** `SegmentMerger::merge` (src/parallel/merger.rs): the metadata of the segment
    that replaces a group of merged segments. */
module Merger {
  import opened Base
  import opened Types

  /** The document counts added up, as the engine's `u32` sum wraps. */
  function DocCountTotal(segments: seq<Segment>): nat
  {
    if segments == [] then 0 else DocCountTotal(segments[..|segments| - 1]) + segments[|segments| - 1].docCount
  }

  function SizeTotal(segments: seq<Segment>): nat
  {
    if segments == [] then 0 else SizeTotal(segments[..|segments| - 1]) + segments[|segments| - 1].metadata.sizeBytes
  }

  /** The smallest `min_doc_id`, `DocId(0)` when there are no segments. */
  function MinDocId(segments: seq<Segment>): (r: DocId)
    ensures segments != [] ==> exists k :: 0 <= k < |segments| && r == segments[k].metadata.minDocId
    ensures forall k :: 0 <= k < |segments| ==> r <= segments[k].metadata.minDocId
    ensures segments == [] ==> r == 0
  {
    if segments == [] then 0
    else if |segments| == 1 then segments[0].metadata.minDocId
    else
      var rest := MinDocId(segments[..|segments| - 1]);
      var last := segments[|segments| - 1].metadata.minDocId;
      assert forall k :: 0 <= k < |segments| - 1 ==> segments[..|segments| - 1][k] == segments[k];
      if last < rest then last else rest
  }

  /** The largest `max_doc_id`, `DocId(0)` when there are no segments. */
  function MaxDocId(segments: seq<Segment>): (r: DocId)
    ensures segments != [] ==> exists k :: 0 <= k < |segments| && r == segments[k].metadata.maxDocId
    ensures forall k :: 0 <= k < |segments| ==> segments[k].metadata.maxDocId <= r
    ensures segments == [] ==> r == 0
  {
    if segments == [] then 0
    else if |segments| == 1 then segments[0].metadata.maxDocId
    else
      var rest := MaxDocId(segments[..|segments| - 1]);
      var last := segments[|segments| - 1].metadata.maxDocId;
      assert forall k :: 0 <= k < |segments| - 1 ==> segments[..|segments| - 1][k] == segments[k];
      if last > rest then last else rest
  }

  /** `merge`: the merged segment gets a fresh id (`newId`), the document counts and
      sizes summed, and the extreme doc ids of the inputs. It never fails. */
  function Merge(segments: seq<Segment>, newId: nat): (r: Result<Segment>)
    ensures r.Ok? && r.value.id == newId
    ensures forall k :: 0 <= k < |segments| ==>
              r.value.metadata.minDocId <= segments[k].metadata.minDocId &&
              segments[k].metadata.maxDocId <= r.value.metadata.maxDocId
    ensures segments == [] ==> r.value.docCount == 0 && r.value.metadata == SegmentMetadata(0, 0, 0)
    ensures |segments| == 1 ==> r.value.docCount == segments[0].docCount && r.value.metadata == segments[0].metadata
  {
    assert |segments| == 1 ==>
      segments[..|segments| - 1] == [] &&
      DocCountTotal(segments) == segments[0].docCount &&
      SizeTotal(segments) == segments[0].metadata.sizeBytes;
    Ok(Segment(newId, TruncU32(DocCountTotal(segments)),
               SegmentMetadata(SizeTotal(segments), MinDocId(segments), MaxDocId(segments))))
  }

  /** Merging a group in two halves and combining the halves' metadata gives the
      metadata of merging it in one go: sizes add up and the doc id range is the hull
      of the halves' ranges. */
  lemma MergeSplitMetadata(a: seq<Segment>, b: seq<Segment>, newId: nat)
    requires a != [] && b != []
    ensures var ma, mb := Merge(a, newId).value.metadata, Merge(b, newId).value.metadata;
            Merge(a + b, newId).value.metadata ==
              SegmentMetadata(ma.sizeBytes + mb.sizeBytes, Min(ma.minDocId, mb.minDocId), Max(ma.maxDocId, mb.maxDocId))
  {
    TotalsAppend(a, b);
    MinSplit(a, b);
    MaxSplit(a, b);
  }

  /** The document counts of two halves add up, modulo 2^32, to that of the whole. */
  lemma MergeSplitCount(a: seq<Segment>, b: seq<Segment>, newId: nat)
    ensures Merge(a + b, newId).value.docCount ==
              (Merge(a, newId).value.docCount + Merge(b, newId).value.docCount) % U32_MOD
  {
    var x, y := DocCountTotal(a), DocCountTotal(b);
    MergeDocCount(a, newId);
    MergeDocCount(b, newId);
    MergeDocCount(a + b, newId);
    TotalsAppend(a, b);
    TruncAdd(x, y);
  }

  lemma MergeDocCount(segments: seq<Segment>, newId: nat)
    ensures Merge(segments, newId).value.docCount == TruncU32(DocCountTotal(segments))
  {
  }

  /** Cutting to 32 bits before or after an addition gives the same result. */
  lemma TruncAdd(x: nat, y: nat)
    ensures TruncU32(x + y) == (TruncU32(x) + TruncU32(y)) % U32_MOD
  {
    var qx, qy := x / U32_MOD, y / U32_MOD;
    assert x == qx * U32_MOD + TruncU32(x);
    assert y == qy * U32_MOD + TruncU32(y);
    assert x + y == (qx + qy) * U32_MOD + (TruncU32(x) + TruncU32(y));
  }

  lemma MinSplit(a: seq<Segment>, b: seq<Segment>)
    requires a != [] && b != []
    ensures MinDocId(a + b) == Min(MinDocId(a), MinDocId(b))
  {
    var ab := a + b;
    var m := Min(MinDocId(a), MinDocId(b));
    forall k | 0 <= k < |ab|
      ensures m <= ab[k].metadata.minDocId
    {
      if k < |a| {
        assert ab[k] == a[k];
      } else {
        assert ab[k] == b[k - |a|];
      }
    }
    if m == MinDocId(a) {
      var i :| 0 <= i < |a| && m == a[i].metadata.minDocId;
      assert ab[i] == a[i];
    } else {
      var i :| 0 <= i < |b| && m == b[i].metadata.minDocId;
      assert ab[|a| + i] == b[i];
    }
  }

  lemma MaxSplit(a: seq<Segment>, b: seq<Segment>)
    requires a != [] && b != []
    ensures MaxDocId(a + b) == Max(MaxDocId(a), MaxDocId(b))
  {
    var ab := a + b;
    var m := Max(MaxDocId(a), MaxDocId(b));
    forall k | 0 <= k < |ab|
      ensures ab[k].metadata.maxDocId <= m
    {
      if k < |a| {
        assert ab[k] == a[k];
      } else {
        assert ab[k] == b[k - |a|];
      }
    }
    if m == MaxDocId(a) {
      var i :| 0 <= i < |a| && m == a[i].metadata.maxDocId;
      assert ab[i] == a[i];
    } else {
      var i :| 0 <= i < |b| && m == b[i].metadata.maxDocId;
      assert ab[|a| + i] == b[i];
    }
  }

  /** The sums over a concatenation add up. */
  lemma {:induction false} TotalsAppend(a: seq<Segment>, b: seq<Segment>)
    ensures DocCountTotal(a + b) == DocCountTotal(a) + DocCountTotal(b)
    ensures SizeTotal(a + b) == SizeTotal(a) + SizeTotal(b)
    decreases |b|
  {
    if b == [] {
      assert a + b == a;
    } else {
      var b' := b[..|b| - 1];
      TotalsAppend(a, b');
      assert (a + b)[..|a + b| - 1] == a + b';
    }
  }
}
