/** `TopKCollector` (src/search/results.rs): keeps the `k` best-scored documents
    seen. Its binary heap orders documents by reversed score, so the heap's top is
    the lowest retained score. Scores (`f32`) are reals; the heap is represented by
    its contents. */
module Results {
  import opened Base
  import opened Types

  /** `ScoredDocument`; the score explanation is left out. */
  datatype ScoredDocument = ScoredDocument(docId: DocId, score: real, document: Option<Document>)

  /** The index of the first lowest-scored document: the heap's top under the
      reversed ordering. */
  function LowestIndex(s: seq<ScoredDocument>): (m: nat)
    requires s != []
    ensures m < |s| && forall j :: 0 <= j < |s| ==> s[m].score <= s[j].score
  {
    if |s| == 1 then 0
    else
      var r := LowestIndex(s[1..]);
      if s[0].score <= s[1..][r].score then 0 else r + 1
  }

  function RemoveAt(s: seq<ScoredDocument>, i: nat): (r: seq<ScoredDocument>)
    requires i < |s|
    ensures |r| == |s| - 1
    ensures multiset(r) + multiset{s[i]} == multiset(s)
    ensures forall x :: x in r ==> x in s
  {
    assert s == s[..i] + [s[i]] + s[i + 1..];
    s[..i] + s[i + 1..]
  }

  /** What `max_score` returns: the score at the heap's top, which is the lowest
      retained score, or 0 for an empty heap. */
  function PeekScore(heap: seq<ScoredDocument>): (r: real)
    ensures heap == [] ==> r == 0.0
    ensures heap != [] ==> (forall x :: x in heap ==> r <= x.score) && exists x :: x in heap && x.score == r
  {
    if heap == [] then 0.0 else heap[LowestIndex(heap)].score
  }

  /** `max_score` as its name and its use as `SearchResults::max_score` promise:
      the highest retained score, or 0 for an empty heap. */
  function HighestScore(heap: seq<ScoredDocument>): (r: real)
    ensures heap == [] ==> r == 0.0
    ensures heap != [] ==> (forall x :: x in heap ==> x.score <= r) && exists x :: x in heap && x.score == r
  {
    if heap == [] then 0.0
    else if |heap| == 1 then heap[0].score
    else
      var rest := HighestScore(heap[1..]);
      assert forall x :: x in heap[1..] ==> x in heap;
      assert forall x :: x in heap ==> x == heap[0] || x in heap[1..];
      if heap[0].score >= rest then heap[0].score else rest
  }

  /** `max_score` reports the lowest retained score: with documents scored 1 and 2
      kept it answers 1, while `get_results` puts the one scored 2 first. */
  lemma MaxScoreIsLowest()
    ensures var heap := [ScoredDocument(1, 1.0, None), ScoredDocument(2, 2.0, None)];
            PeekScore(heap) == 1.0 && HighestScore(heap) == 2.0 && SortByScore(heap)[0].score == 2.0
  {
    var heap := [ScoredDocument(1, 1.0, None), ScoredDocument(2, 2.0, None)];
    assert heap[1..] == [heap[1]];
    assert Insert(heap[1], []) == [heap[1]];
    assert SortByScore(heap[1..]) == [heap[1]];
  }

  /** Scores never increase along `s`. */
  predicate NonIncreasing(s: seq<ScoredDocument>)
  {
    forall i, j :: 0 <= i < j < |s| ==> s[i].score >= s[j].score
  }

  /** A document scoring at least every score of a non-increasing sequence can lead it. */
  lemma ConsNonIncreasing(h: ScoredDocument, t: seq<ScoredDocument>)
    requires NonIncreasing(t) && forall y :: y in t ==> h.score >= y.score
    ensures NonIncreasing([h] + t)
  {
    forall i, j | 0 <= i < j < |[h] + t|
      ensures ([h] + t)[i].score >= ([h] + t)[j].score
    {
      if i == 0 {
        assert ([h] + t)[j] in t;
      }
    }
  }

  /** `x` placed into a score-descending sequence before the first lower score. */
  function Insert(x: ScoredDocument, s: seq<ScoredDocument>): (r: seq<ScoredDocument>)
    requires NonIncreasing(s)
    ensures NonIncreasing(r) && multiset(r) == multiset(s) + multiset{x}
    ensures forall y :: y in r ==> y == x || y in s
  {
    if s == [] || x.score >= s[0].score then
      ConsNonIncreasing(x, s);
      [x] + s
    else
      var rest := Insert(x, s[1..]);
      assert s == [s[0]] + s[1..];
      assert forall y :: y in s[1..] ==> s[0].score >= y.score;
      ConsNonIncreasing(s[0], rest);
      [s[0]] + rest
  }

  /** The documents by non-increasing score. */
  function SortByScore(s: seq<ScoredDocument>): (r: seq<ScoredDocument>)
    ensures NonIncreasing(r) && multiset(r) == multiset(s)
  {
    if s == [] then []
    else
      assert s == [s[0]] + s[1..];
      Insert(s[0], SortByScore(s[1..]))
  }

  /** The bound is at most every kept score and, unless nothing can be kept, at
      least every dropped score. */
  ghost predicate Bounded(heap: seq<ScoredDocument>, dropped: seq<ScoredDocument>, minScore: real, k: nat)
  {
    (forall x :: x in heap ==> minScore <= x.score) &&
    (k > 0 ==> forall y :: y in dropped ==> y.score <= minScore)
  }

  /** An overfilled heap that pops its lowest document and takes the new lowest
      score as its bound stays bounded. */
  lemma OverflowBounded(heap: seq<ScoredDocument>, dropped: seq<ScoredDocument>, minScore: real, k: nat,
                        d: ScoredDocument)
    requires Bounded(heap, dropped, minScore, k) && d.score > minScore && |heap| == k
    ensures var full := heap + [d];
            var top := LowestIndex(full);
            var rest := RemoveAt(full, top);
            Bounded(rest, dropped + [full[top]], if rest == [] then minScore else rest[LowestIndex(rest)].score, k)
  {
    var full := heap + [d];
    assert forall x :: x in full ==> minScore <= x.score;
    var top := LowestIndex(full);
    var rest := RemoveAt(full, top);
    if rest != [] {
      var low := rest[LowestIndex(rest)].score;
      assert rest[LowestIndex(rest)] in full;
      assert forall y :: y in dropped + [full[top]] ==> y in dropped || y == full[top];
    }
  }

  /** At most `k` kept; kept and dropped make up what was collected; the bound is
      still its initial 0 until the heap first fills, and once anything is dropped
      the heap is full. */
  ghost predicate Accounted(heap: seq<ScoredDocument>, dropped: seq<ScoredDocument>,
                            collected: seq<ScoredDocument>, minScore: real, k: nat)
  {
    |heap| <= k &&
    multiset(heap) + multiset(dropped) == multiset(collected) &&
    (|heap| < k ==> minScore == 0.0) &&
    (dropped != [] ==> |heap| == k)
  }

  /** Popping the lowest of an overfilled heap keeps the accounting. */
  lemma OverflowAccounted(heap: seq<ScoredDocument>, dropped: seq<ScoredDocument>,
                          collected: seq<ScoredDocument>, minScore: real, k: nat, d: ScoredDocument)
    requires Accounted(heap, dropped, collected, minScore, k) && |heap| == k
    ensures var full := heap + [d];
            var top := LowestIndex(full);
            var rest := RemoveAt(full, top);
            Accounted(rest, dropped + [full[top]], collected + [d],
                      if rest == [] then minScore else rest[LowestIndex(rest)].score, k)
  {
    var full := heap + [d];
    var top := LowestIndex(full);
    var rest := RemoveAt(full, top);
    calc {
      multiset(rest) + multiset(dropped + [full[top]]);
      multiset(rest) + multiset{full[top]} + multiset(dropped);
      multiset(full) + multiset(dropped);
      multiset(heap) + multiset(dropped) + multiset{d};
      multiset(collected + [d]);
    }
  }

  /** Keeping a document in a heap with room keeps the accounting. */
  lemma KeepAccounted(heap: seq<ScoredDocument>, dropped: seq<ScoredDocument>,
                      collected: seq<ScoredDocument>, minScore: real, k: nat, d: ScoredDocument)
    requires Accounted(heap, dropped, collected, minScore, k) && |heap| + 1 <= k
    ensures Accounted(heap + [d], dropped, collected + [d], minScore, k)
    ensures Bounded(heap, dropped, minScore, k) && 0.0 <= d.score ==> Bounded(heap + [d], dropped, minScore, k)
  {
    assert multiset(heap + [d]) == multiset(heap) + multiset{d};
    assert multiset(collected + [d]) == multiset(collected) + multiset{d};
  }

  /** Turning a document away from a full heap keeps the accounting. */
  lemma RejectAccounted(heap: seq<ScoredDocument>, dropped: seq<ScoredDocument>,
                        collected: seq<ScoredDocument>, minScore: real, k: nat, d: ScoredDocument)
    requires Accounted(heap, dropped, collected, minScore, k) && |heap| >= k && d.score <= minScore
    ensures Accounted(heap, dropped + [d], collected + [d], minScore, k)
    ensures Bounded(heap, dropped, minScore, k) ==> Bounded(heap, dropped + [d], minScore, k)
  {
    assert multiset(dropped + [d]) == multiset(dropped) + multiset{d};
    assert multiset(collected + [d]) == multiset(collected) + multiset{d};
  }

  /** `TopKCollector`. The ghost fields record every document collected and every
      document turned away or popped. */
  class TopKCollector {
    var heap: seq<ScoredDocument>
    const k: nat
    var minScore: real
    var totalCollected: nat
    ghost var collected: seq<ScoredDocument>
    ghost var dropped: seq<ScoredDocument>

    /** Every collected document counted, and accounted for as kept or dropped. */
    ghost predicate Valid()
      reads this
    {
      totalCollected == |collected| && Accounted(heap, dropped, collected, minScore, k)
    }

    /** The bound is at most every kept score and, unless nothing can be kept, at
        least every dropped score. */
    ghost predicate TopK()
      reads this
    {
      Bounded(heap, dropped, minScore, k)
    }

    /** `TopKCollector::new`. */
    constructor (k: nat)
      ensures Valid() && TopK()
      ensures this.k == k && heap == [] && minScore == 0.0 && totalCollected == 0
    {
      this.k := k;
      heap := [];
      minScore := 0.0;
      totalCollected := 0;
      collected := [];
      dropped := [];
    }

    /** `TopKCollector::collect`: count the document; keep it if it beats the bound
        or the heap has room; when that overfills the heap, pop a lowest-scored
        document and take the new lowest score as the bound. */
    method Collect(d: ScoredDocument)
      requires Valid()
      modifies this
      ensures Valid()
      ensures totalCollected == old(totalCollected) + 1 && collected == old(collected) + [d]
      ensures old(TopK()) && 0.0 <= d.score ==> TopK()
      ensures !(d.score > old(minScore) || old(|heap|) < k) ==>
                heap == old(heap) && minScore == old(minScore)
      ensures old(|heap|) < k ==> heap == old(heap) + [d] && minScore == old(minScore)
      ensures d.score > old(minScore) && old(|heap|) >= k ==>
                var full := old(heap) + [d];
                heap == RemoveAt(full, LowestIndex(full)) &&
                minScore == if heap == [] then old(minScore) else heap[LowestIndex(heap)].score
    {
      var newHeap, newMin := heap, minScore;
      ghost var newDropped := dropped;
      if d.score > minScore || |heap| < k {
        if |heap| + 1 > k {
          OverflowAccounted(heap, dropped, collected, minScore, k, d);
          if TopK() {
            OverflowBounded(heap, dropped, minScore, k, d);
          }
          var full := heap + [d];
          var top := LowestIndex(full);
          newDropped := dropped + [full[top]];
          newHeap := RemoveAt(full, top);
          if newHeap != [] {
            newMin := newHeap[LowestIndex(newHeap)].score;
          }
        } else {
          KeepAccounted(heap, dropped, collected, minScore, k, d);
          newHeap := heap + [d];
        }
      } else {
        RejectAccounted(heap, dropped, collected, minScore, k, d);
        newDropped := dropped + [d];
      }
      heap, minScore, dropped := newHeap, newMin, newDropped;
      totalCollected, collected := totalCollected + 1, collected + [d];
    }

    /** Every kept document scores at least as high as every dropped one, and the
        heap holds `k` documents or everything collected. */
    lemma KeepsBest()
      requires Valid() && TopK()
      ensures forall x, y :: x in heap && y in dropped ==> y.score <= x.score
      ensures |heap| == Min(k, |collected|)
    {
      assert |collected| == |multiset(collected)| == |heap| + |dropped|;
    }

    /** `TopKCollector::get_results`: the kept documents by non-increasing score. */
    method GetResults() returns (results: seq<ScoredDocument>)
      ensures NonIncreasing(results) && multiset(results) == multiset(heap)
    {
      results := SortByScore(heap);
    }

    /** `TopKCollector::max_score`: the score at the heap's top. */
    method MaxScore() returns (r: real)
      ensures r == PeekScore(heap)
    {
      if heap == [] {
        return 0.0;
      }
      return heap[LowestIndex(heap)].score;
    }
  }
}
