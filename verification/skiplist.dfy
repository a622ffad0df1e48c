/** `SkipList` (src/index/skiplist.rs): one entry per posting of a list, every
    `interval`-th entry pointing `interval` entries ahead, with `interval` the
    square root of the list length. */
module SkipListIndex {
  import opened Base
  import opened Types
  import opened Posting

  datatype SkipEntry = SkipEntry(docId: DocId, skipTo: Option<nat>)

  datatype SkipList = SkipList(entries: seq<SkipEntry>, skipInterval: nat)

  /** The integer square root: `(n as f32).sqrt() as usize`, without the rounding of
      32-bit floats. */
  function ISqrt(n: nat): (r: nat)
    ensures r * r <= n < (r + 1) * (r + 1)
    decreases n
  {
    if n == 0 then 0
    else
      var s := ISqrt(n - 1);
      if (s + 1) * (s + 1) <= n then
        assert n == (s + 1) * (s + 1);
        assert (s + 1) * (s + 1) < (s + 2) * (s + 2);
        s + 1
      else s
  }

  /** The jump `build` gives entry `i` of a list of `len` entries. */
  function SkipTarget(i: nat, interval: nat, len: nat): Option<nat>
  {
    if interval > 0 && (i + 1) % interval == 0 && i + interval < len then Some(i + interval) else None
  }

  /** Every jump that lands inside the list goes forward; a jump past the end is
      never taken, so it may point anywhere. */
  predicate ForwardSkips(sl: SkipList)
  {
    forall i :: 0 <= i < |sl.entries| && sl.entries[i].skipTo.Some? && sl.entries[i].skipTo.value < |sl.entries| ==>
      i < sl.entries[i].skipTo.value
  }

  predicate StrictlyAscendingIds(entries: seq<SkipEntry>)
  {
    forall i, j :: 0 <= i < j < |entries| ==> entries[i].docId < entries[j].docId
  }

  /** `SkipList::build`. */
  method Build(postings: seq<Posting>) returns (sl: SkipList)
    ensures sl.skipInterval == ISqrt(|postings|)
    ensures |sl.entries| == |postings|
    ensures forall i :: 0 <= i < |postings| ==>
              sl.entries[i] == SkipEntry(postings[i].docId, SkipTarget(i, sl.skipInterval, |postings|))
    ensures ForwardSkips(sl)
    ensures 0 < |postings| ==> 0 < sl.skipInterval
  {
    var interval := ISqrt(|postings|);
    assert 0 < |postings| ==> 0 < interval;
    var entries: seq<SkipEntry> := [];
    for i := 0 to |postings|
      invariant |entries| == i
      invariant forall j :: 0 <= j < i ==>
                  entries[j] == SkipEntry(postings[j].docId, SkipTarget(j, interval, |postings|))
    {
      var skipTo := if (i + 1) % interval == 0 && i + interval < |postings| then Some(i + interval) else None;
      entries := entries + [SkipEntry(postings[i].docId, skipTo)];
    }
    sl := SkipList(entries, interval);
  }

  /** `SkipList::find`: walks the entries, taking a jump whenever its target is still
      at most `target`, and stops at the first doc id at least `target`. */
  method Find(sl: SkipList, target: DocId) returns (r: Option<nat>)
    requires ForwardSkips(sl)
    ensures r.Some? ==> r.value < |sl.entries| && sl.entries[r.value].docId >= target
    ensures StrictlyAscendingIds(sl.entries) && r.Some? ==>
              forall j :: 0 <= j < r.value ==> sl.entries[j].docId < target
    ensures StrictlyAscendingIds(sl.entries) ==>
              (r.None? <==> forall j :: 0 <= j < |sl.entries| ==> sl.entries[j].docId < target)
  {
    var entries := sl.entries;
    var i := 0;
    while i < |entries|
      invariant 0 <= i <= |entries|
      invariant StrictlyAscendingIds(entries) ==> forall j :: 0 <= j < i ==> entries[j].docId < target
      decreases |entries| - i
    {
      if entries[i].docId >= target {
        return Some(i);
      }
      if entries[i].skipTo.Some? {
        var skipTo := entries[i].skipTo.value;
        if skipTo < |entries| && entries[skipTo].docId <= target {
          i := skipTo;
          continue;
        }
      }
      i := i + 1;
    }
    return None;
  }
}
