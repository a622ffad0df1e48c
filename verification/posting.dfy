/** `PostingList` (src/index/posting.rs): the doc ids of a term's postings, delta
    encoded, their term frequencies, and each posting's positions, VByte encoded. */
module Posting {
  import opened Base
  import opened Types
  import IntegerBlock

  /** `Posting`; `field_norm` is an `f32` in the engine and a real here. */
  datatype Posting = Posting(docId: DocId, termFreq: U32, positions: seq<U32>, fieldNorm: real)

  datatype PostingList = PostingList(
    docIds: IntegerBlock.EncodedIntegerBlock,
    termFreqs: seq<U32>,
    positions: seq<IntegerBlock.EncodedIntegerBlock>)

  /** The doc ids `new` stores: each `doc_id.0 as u32`. */
  function DocIdsOf(postings: seq<Posting>): (r: seq<U32>)
    ensures |r| == |postings|
    ensures forall i :: 0 <= i < |r| ==> r[i] == TruncU32(postings[i].docId)
  {
    if postings == [] then [] else [TruncU32(postings[0].docId)] + DocIdsOf(postings[1..])
  }

  function TermFreqsOf(postings: seq<Posting>): (r: seq<U32>)
    ensures |r| == |postings|
    ensures forall i :: 0 <= i < |r| ==> r[i] == postings[i].termFreq
  {
    if postings == [] then [] else [postings[0].termFreq] + TermFreqsOf(postings[1..])
  }

  /** What `iter` gives back for a posting handed to `new`: the doc id cut to 32 bits
      and `field_norm` reset to 1.0. */
  function Stored(p: Posting): Posting
  {
    Posting(TruncU32(p.docId), p.termFreq, p.positions, 1.0)
  }

  function Sum(xs: seq<U32>): nat
  {
    if xs == [] then 0 else xs[0] + Sum(xs[1..])
  }

  lemma {:induction false} SumSnoc(xs: seq<U32>, x: U32)
    ensures Sum(xs + [x]) == Sum(xs) + x
    decreases |xs|
  {
    if xs == [] {
      assert xs + [x] == [x];
    } else {
      assert (xs + [x])[1..] == xs[1..] + [x];
      SumSnoc(xs[1..], x);
    }
  }

  /** `PostingList::new`: the doc ids delta encoded, the positions of each posting
      VByte encoded, the term frequencies kept as they are. */
  method New(postings: seq<Posting>) returns (r: Result<PostingList>)
    ensures r.Ok?
    ensures r.value.docIds.encoding == IntegerBlock.DeltaEncoding
    ensures IntegerBlock.Decode(r.value.docIds) == Ok(DocIdsOf(postings))
    ensures r.value.termFreqs == TermFreqsOf(postings)
    ensures |r.value.positions| == |postings|
    ensures forall i :: 0 <= i < |postings| ==>
              r.value.positions[i].encoding == IntegerBlock.VByteEncoding &&
              IntegerBlock.Decode(r.value.positions[i]) == Ok(postings[i].positions)
    ensures Decodable(r.value) && Iterated(r.value) == Ok(StoredAll(postings))
  {
    var docIds := DocIdsOf(postings);
    var idsBlock := IntegerBlock.Encode(docIds, IntegerBlock.DeltaEncoding);
    var encodedIds := idsBlock.value;
    var positions: seq<IntegerBlock.EncodedIntegerBlock> := [];
    for i := 0 to |postings|
      invariant |positions| == i
      invariant forall j :: 0 <= j < i ==>
                  positions[j].encoding == IntegerBlock.VByteEncoding &&
                  IntegerBlock.Decode(positions[j]) == Ok(postings[j].positions)
    {
      var encoded := IntegerBlock.Encode(postings[i].positions, IntegerBlock.VByteEncoding);
      positions := positions + [encoded.value];
    }
    var pl := PostingList(encodedIds, TermFreqsOf(postings), positions);
    IterOfNew(postings, pl, 0);
    return Ok(pl);
  }

  /** `doc_freq`: the number of postings, as a u32. */
  function DocFreq(pl: PostingList): (r: U32)
    ensures |pl.termFreqs| < U32_MOD ==> r == |pl.termFreqs|
  {
    TruncU32(|pl.termFreqs|)
  }

  /** `total_freq`: the sum of the term frequencies. */
  function TotalFreq(pl: PostingList): nat
  {
    Sum(pl.termFreqs)
  }

  function Len(pl: PostingList): nat
  {
    |pl.termFreqs|
  }

  function IsEmpty(pl: PostingList): (r: bool)
    ensures r <==> Len(pl) == 0
  {
    pl.termFreqs == []
  }

  /** The statistics of a freshly built list count its postings and their frequencies. */
  lemma {:induction false} StatsOfNew(postings: seq<Posting>, pl: PostingList)
    requires pl.termFreqs == TermFreqsOf(postings)
    ensures |postings| < U32_MOD ==> DocFreq(pl) == |postings|
    ensures Len(pl) == |postings|
    ensures IsEmpty(pl) <==> postings == []
    ensures TotalFreq(pl) == FreqSum(postings)
    decreases |postings|
  {
    if postings != [] {
      var rest := PostingList(pl.docIds, pl.termFreqs[1..], pl.positions);
      assert TermFreqsOf(postings)[1..] == TermFreqsOf(postings[1..]);
      StatsOfNew(postings[1..], rest);
    }
  }

  /** The sum of the postings' term frequencies, posting by posting. */
  function FreqSum(postings: seq<Posting>): nat
  {
    if postings == [] then 0 else postings[0].termFreq + FreqSum(postings[1..])
  }

  /** The shape `iter` needs to avoid indexing out of bounds: one position block per
      term frequency, and at least as many decoded doc ids. */
  predicate Decodable(pl: PostingList)
  {
    |pl.positions| == |pl.termFreqs| &&
    (IntegerBlock.Decode(pl.docIds).Ok? ==> |IntegerBlock.Decode(pl.docIds).value| >= |pl.termFreqs|)
  }

  /** The postings `iter` builds from index `i` on, given the decoded doc ids: the
      first decoding error among the position blocks, or the postings with
      `field_norm` 1.0. */
  function IteratedFrom(pl: PostingList, ids: seq<U32>, i: nat): (r: Result<seq<Posting>>)
    requires Decodable(pl) && |ids| >= Len(pl) && i <= Len(pl)
    ensures r.Ok? ==> |r.value| == Len(pl) - i
    decreases Len(pl) - i
  {
    if i == Len(pl) then Ok([])
    else match IntegerBlock.Decode(pl.positions[i])
      case Err(e) => Err(e)
      case Ok(positions) =>
        match IteratedFrom(pl, ids, i + 1)
        case Err(e) => Err(e)
        case Ok(rest) => Ok([Posting(ids[i], pl.termFreqs[i], positions, 1.0)] + rest)
  }

  /** What `iter` returns. */
  function Iterated(pl: PostingList): Result<seq<Posting>>
    requires Decodable(pl)
  {
    match IntegerBlock.Decode(pl.docIds)
    case Err(e) => Err(e)
    case Ok(ids) => IteratedFrom(pl, ids, 0)
  }

  /** `postings` in front of a result, or the result's error. */
  function PrependOk(postings: seq<Posting>, r: Result<seq<Posting>>): Result<seq<Posting>>
  {
    match r
    case Err(e) => Err(e)
    case Ok(rest) => Ok(postings + rest)
  }

  /** `iter`: decodes the doc ids, then each posting's positions, in order. */
  method Iter(pl: PostingList) returns (r: Result<seq<Posting>>)
    requires Decodable(pl)
    ensures r == Iterated(pl)
  {
    var docIds :- IntegerBlock.Decode(pl.docIds);
    var postings: seq<Posting> := [];
    assert IteratedFrom(pl, docIds, 0) == PrependOk([], IteratedFrom(pl, docIds, 0)) by {
      if IteratedFrom(pl, docIds, 0).Ok? {
        assert [] + IteratedFrom(pl, docIds, 0).value == IteratedFrom(pl, docIds, 0).value;
      }
    }
    for i := 0 to Len(pl)
      invariant Iterated(pl) == PrependOk(postings, IteratedFrom(pl, docIds, i))
    {
      var positions :- IntegerBlock.Decode(pl.positions[i]);
      var p := Posting(docIds[i], pl.termFreqs[i], positions, 1.0);
      if IteratedFrom(pl, docIds, i + 1).Ok? {
        var rest := IteratedFrom(pl, docIds, i + 1).value;
        assert postings + ([p] + rest) == (postings + [p]) + rest;
      }
      postings := postings + [p];
    }
    assert postings + [] == postings;
    return Ok(postings);
  }

  /** The postings as a list built by `new` stores them. */
  function StoredAll(postings: seq<Posting>): (r: seq<Posting>)
    ensures |r| == |postings|
  {
    if postings == [] then [] else [Stored(postings[0])] + StoredAll(postings[1..])
  }

  /** Each position block decodes to the positions of the posting at its index. */
  predicate PositionsDecodeTo(blocks: seq<IntegerBlock.EncodedIntegerBlock>, postings: seq<Posting>)
  {
    |blocks| == |postings| &&
    forall i :: 0 <= i < |postings| ==> IntegerBlock.Decode(blocks[i]) == Ok(postings[i].positions)
  }

  /** A list built by `new` iterates back to its postings, in order, doc ids cut to
      32 bits and `field_norm` 1.0 (from index `i` on). */
  lemma {:induction false} IterOfNew(postings: seq<Posting>, pl: PostingList, i: nat)
    requires IntegerBlock.Decode(pl.docIds) == Ok(DocIdsOf(postings))
    requires pl.termFreqs == TermFreqsOf(postings)
    requires |pl.positions| == |postings| && i <= |postings|
    requires PositionsDecodeTo(pl.positions, postings)
    ensures Decodable(pl)
    ensures IteratedFrom(pl, DocIdsOf(postings), i) == Ok(StoredAll(postings[i..]))
    ensures i == 0 ==> Iterated(pl) == Ok(StoredAll(postings))
    decreases |postings| - i
  {
    assert |DocIdsOf(postings)| == |pl.termFreqs|;
    assert Decodable(pl);
    if i == |postings| {
      assert postings[i..] == [];
    } else {
      IterOfNew(postings, pl, i + 1);
      var ids := DocIdsOf(postings);
      var p := Posting(ids[i], pl.termFreqs[i], postings[i].positions, 1.0);
      assert p == Stored(postings[i]);
      assert IntegerBlock.Decode(pl.positions[i]) == Ok(postings[i].positions);
      assert postings[i..][1..] == postings[i + 1..];
    }
  }

  /** `find_doc`: a binary search of the decoded doc ids for `target as u32`. */
  method FindDoc(pl: PostingList, target: DocId) returns (r: Result<Option<nat>>)
    ensures r.Err? <==> IntegerBlock.Decode(pl.docIds).Err?
    ensures r.Ok? && r.value.Some? ==>
              var ids := IntegerBlock.Decode(pl.docIds).value;
              r.value.value < |ids| && ids[r.value.value] == TruncU32(target)
    ensures r.Ok? && Ascending(IntegerBlock.Decode(pl.docIds).value) ==>
              (r.value.Some? <==> TruncU32(target) in IntegerBlock.Decode(pl.docIds).value)
  {
    var ids :- IntegerBlock.Decode(pl.docIds);
    var t := TruncU32(target);
    var lo, hi := 0, |ids|;
    while lo < hi
      invariant 0 <= lo <= hi <= |ids|
      invariant Ascending(ids) ==> forall j :: 0 <= j < lo ==> ids[j] < t
      invariant Ascending(ids) ==> forall j :: hi <= j < |ids| ==> t < ids[j]
      decreases hi - lo
    {
      var mid := lo + (hi - lo) / 2;
      if ids[mid] == t {
        return Ok(Some(mid));
      } else if ids[mid] < t {
        lo := mid + 1;
      } else {
        hi := mid;
      }
    }
    return Ok(None);
  }
}
