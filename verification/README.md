# Drusdenx core, modelled in Dafny

This project models the sequential core of Drusdenx, a full-text search engine written in Rust. It leaves out the storage, write-ahead log, threading and file I/O layers and keeps the logic underneath them:

- the two-pointer union and intersection of sorted doc-id lists;
- the integer codecs: VByte, delta-over-VByte and `EncodedIntegerBlock`;
- the index bookkeeping: `PostingList`, `InvertedIndex`, `TermDictionary`, fuzzy term search and the skip list;
- the transaction and MVCC state machines;
- tiered merge selection and merged-segment metadata;
- the query pipeline: the string parser, the document matcher, the validator, the planner and the optimizer rules;
- search helpers: edit distance and the Levenshtein DFA helpers, prefix and wildcard search over an FST's keys, and the top-k collector;
- resource managers: `MemoryTracker`, `MemoryPool` and `BufferPool`;
- the n-gram token filter.

There is one module per source file. Shared vocabulary lives in `Base`: fixed-width integers, bytes, error kinds, and `Option`/`Result`. `Types` holds the engine's plain records, `QueryAst` the query tree and `Text` the few `str` operations the parser relies on.

The shape of each module follows its source file:

- Loops that fill buffers or walk indices are methods with loop invariants. Each is proved against a function that specifies it.
- Objects whose fields change are classes: `TermDictionary`, `InvertedIndex`, `Transaction`, `TransactionManager`, `MVCCController`, `TopKCollector`, `MemoryTracker`, `MemoryPool`, `BufferPool` and `LevenshteinDfa`.
- Pure case analysis and recursion stay functions.

Each operation is paired with the property the engine relies on. Examples: the codec round trips, set semantics of the list merges, the accounting of the top-k heap, and the exact gram set of the n-gram filter.

Integer widths are written out where they matter: `u32` doc ids and counts, `usize` wrap-around in the memory tracker, and the `u64` version counter. Other `usize` counters are unbounded, as "## Left out" says. Floating-point values (scores, norms, numeric field values) are reals.

## Model

| member | source | states |
|---|---|---|
| SortedSetOps.UnionLength | src/simd/operation.rs:8-36 | the union of the two remainders is no longer than both remainders together |
| SortedSetOps.UnionMembers | src/simd/operation.rs:12-36 | an element is in the union exactly when it is in either remainder; an equal pair is emitted once |
| SortedSetOps.UnionAscending | src/simd/operation.rs:12-36 | on strictly ascending inputs the union is strictly ascending |
| SortedSetOps.Union | src/simd/operation.rs:7-38 | `union_sorted`'s loops compute the merge; the result has at most \|a\|+\|b\| elements, holds exactly the elements of a ∪ b, and is strictly ascending when both inputs are |
| SortedSetOps.UnionFacts | src/simd/operation.rs:7-38 | the whole union: length bound, exactly a ∪ b, strictly ascending on strictly ascending inputs |
| SortedSetOps.AdvanceA | src/simd/operation.rs:61-65 | passing over a run of `a` below the head of `b` does not change what the plain merge keeps |
| SortedSetOps.AdvanceB | src/simd/operation.rs:67-74 | passing over a run of `b` below the head of `a` does not change what the plain merge keeps |
| SortedSetOps.SkipAgrees | src/simd/operation.rs:55-88 | on ascending inputs the 8-element chunk skip never drops a common element: the skipping merge equals the plain two-pointer merge |
| SortedSetOps.MergeMembersIn | src/simd/operation.rs:79-87 | the plain merge keeps only elements present in both remainders |
| SortedSetOps.MergeKeepsCommon | src/simd/operation.rs:79-87 | on strictly ascending inputs the plain merge keeps every element common to both remainders |
| SortedSetOps.MergeAscending | src/simd/operation.rs:79-87 | on strictly ascending inputs the plain merge is strictly ascending |
| SortedSetOps.Intersected | src/simd/operation.rs:44-46 | an empty input gives an empty intersection |
| SortedSetOps.IntersectedIsIntersection | src/simd/operation.rs:43-91 | on strictly ascending inputs `intersect_sorted` equals the plain merge, holds exactly a ∩ b, and is strictly ascending |
| SortedSetOps.Intersect | src/simd/operation.rs:43-91 | the method with the chunk skip returns the specified intersection; on ascending inputs it equals the plain merge; on strictly ascending inputs it is exactly a ∩ b and strictly ascending |
| VByte.ChunkIsTruncatedShift | src/compression/vbyte.rs:35 | the group a byte contributes is its low seven bits shifted by `7k` and cut to 32 bits |
| VByte.Encoded | src/compression/vbyte.rs:9-16 | an encoding has at least one byte, every byte but the last has bit 128 set, the last has it clear, and a value below 128 is the single byte equal to it |
| VByte.DecodedFrom | src/compression/vbyte.rs:33-47 | a successful decode from byte `k` consumes more than `k` and at most five bytes, all within the input |
| VByte.Decoded | src/compression/vbyte.rs:28-48 | a successful decode consumes between one byte and the whole input |
| VByte.EncodedLength | src/compression/vbyte.rs:10-14 | a value that fits in 32 bits after `k` groups needs at most `5 - k` more bytes |
| VByte.EncodedAtMostFive | src/compression/vbyte.rs:9-16 | `encode_u32` emits between one and five bytes |
| VByte.DecodeEncodedFrom | src/compression/vbyte.rs:33-39 | decoding from byte `k` an encoding placed there adds the encoded value at bit `7k` and consumes exactly its bytes |
| VByte.DecodeEncoded | src/compression/vbyte.rs:28-40 | `decode_u32(encode_u32(v) ++ rest)` returns `v` and the number of bytes written |
| VByte.DecodeIncomplete | src/compression/vbyte.rs:33-47 | input that ends while every byte read carries the continuation bit gives the "Incomplete VByte" error |
| VByte.DecodeOverflow | src/compression/vbyte.rs:41-44 | a fifth byte with the continuation bit gives the "VByte overflow" error |
| VByte.IncompleteOrOverflow | src/compression/vbyte.rs:41-47 | from the first byte: up to four continuation bytes and then the end is incomplete; five continuation bytes is an overflow |
| VByte.DecodeEncodedList | src/compression/vbyte.rs:19-25 | `decode_u32_list(encode_u32_list(xs)) == xs` |
| VByte.EncodeU32 | src/compression/vbyte.rs:9-16 | the loop appends exactly the encoding of the value, one to five bytes |
| VByte.EncodeU32List | src/compression/vbyte.rs:19-25 | the output is the encodings in order, and it decodes back to the input list |
| VByte.DecodeU32 | src/compression/vbyte.rs:28-48 | the loop over `value`, `shift` and `consumed` computes the specified decode, errors included |
| VByte.DecodeU32List | src/compression/vbyte.rs:51-62 | the loop decodes integers until the input is used up and fails with the first error |
| Base.LeBytesRoundTrip | src/compression/delta.rs:17-35 | `u32::from_le_bytes` inverts `to_le_bytes`, in both directions |
| Base.WrapAddSub | src/compression/delta.rs:21-43 | `prev.wrapping_add(cur.wrapping_sub(prev)) == cur` |
| Delta.Deltas | src/compression/delta.rs:20-23 | one wrapping difference per neighbouring pair, none for the empty list |
| Delta.RunningSums | src/compression/delta.rs:41-47 | one decoded value per difference |
| Delta.RunningSumsOfDeltas | src/compression/delta.rs:21-43 | re-adding the wrapping differences to the first value gives back the rest of the list |
| Delta.DeltaRoundTrip | src/compression/delta.rs:10-50 | `decode_u32_list(encode_u32_list(xs)) == xs` for every u32 list, sorted or not |
| Delta.EncodedListLength | src/compression/delta.rs:20-23 | the VByte encodings of the differences take the sum of their lengths |
| Delta.DeltaEncodedShape | src/compression/delta.rs:15-23 | a non-empty list takes 4 bytes plus the VByte lengths of its differences, and the first 4 bytes are the first value little-endian |
| Delta.ShortInputDecodesEmpty | src/compression/delta.rs:30-32 | input shorter than 4 bytes decodes to the empty list |
| Delta.EncodeDeltaList | src/compression/delta.rs:10-26 | the loop produces the specified encoding, nothing for the empty list, and the output decodes back to the input |
| Delta.DecodeDeltaList | src/compression/delta.rs:29-50 | the loop over `pos` and `prev` computes the specified decode, the empty list for input shorter than 4 bytes, and fails with the first VByte error |
| IntegerBlock.RawEncodedLength | src/compression/compress.rs:110-116 | the `None` encoding is exactly 4·n bytes |
| IntegerBlock.RawRoundTrip | src/compression/compress.rs:110-141 | `None` decoding inverts `None` encoding |
| IntegerBlock.RawDecodedIgnoresPartialChunk | src/compression/compress.rs:138 | `None` decoding reads \|data\|/4 values and ignores a trailing partial chunk |
| IntegerBlock.Decode | src/compression/compress.rs:135-145 | `None` decoding always succeeds with \|data\|/4 values; a Delta block shorter than 4 bytes decodes to the empty list |
| IntegerBlock.DecodeEncoded | src/compression/compress.rs:107-145 | `decode(encode(xs, e)) == xs` for None, Delta and VByte |
| IntegerBlock.Encode | src/compression/compress.rs:108-133 | encoding never fails, `original_count` is the input length, the `None` loop writes 4·n bytes, and the block decodes back to the input |
| Posting.DocIdsOf | src/index/posting.rs:24 | one doc id per posting, each `doc_id.0 as u32` |
| Posting.TermFreqsOf | src/index/posting.rs:44 | one term frequency per posting, in order |
| Posting.New | src/index/posting.rs:22-47 | `new` never fails; the doc ids are a Delta block that decodes to the truncated ids; the frequencies are kept; each posting's positions are a VByte block that decodes back to them |
| Posting.DocFreq | src/index/posting.rs:66-68 | `doc_freq` is the number of postings whenever that fits in a u32 |
| Posting.IsEmpty | src/index/posting.rs:76-83 | `is_empty()` holds exactly when `len() == 0` |
| Posting.StatsOfNew | src/index/posting.rs:44-83 | on a list built by `new`, `doc_freq` and `len` count the postings, `is_empty` means no postings, and `total_freq` is the sum of their `term_freq` |
| Posting.IteratedFrom | src/index/posting.rs:91-99 | a successful iteration from index `i` yields one posting per remaining index |
| Posting.Iter | src/index/posting.rs:87-102 | the loop decodes the doc ids, then each posting's positions, and yields the specified postings or the first decoding error |
| Posting.StoredAll | src/index/posting.rs:93-98 | one stored posting per input posting |
| Posting.IterOfNew | src/index/posting.rs:22-102 | a list built by `new` iterates back to its postings in order, doc ids cut to 32 bits and `field_norm` 1.0 |
| Posting.FindDoc | src/index/posting.rs:112-117 | fails exactly when the doc ids do not decode; a found index holds `target as u32`; on ascending ids a hit is found exactly when the id is present |
| Inverted.TermDictionary.constructor | src/index/inverted.rs:183-188 | a new dictionary is empty and its map/vector invariant holds |
| Inverted.TermDictionary.GetTermInfo | src/index/inverted.rs:215-217 | a term has info exactly when it is in `term_map`, and the info is the slot `term_map` names |
| Inverted.TermDictionary.Len | src/index/inverted.rs:219-221 | `len` is the number of distinct terms |
| Inverted.TermDictionary.AddTerm | src/index/inverted.rs:190-206 | afterwards `get_term_info(t).doc_freq == df`; a known term only has its `doc_freq` replaced and `len` is unchanged; a new term gets the next slot with `total_freq == df` and the other statistics zero; every index in `term_map` stays a valid slot |
| Inverted.FirstOccurrencesDistinct | src/index/inverted.rs:69-77 | the grouped terms are distinct |
| Inverted.FirstOccurrencesMembers | src/index/inverted.rs:69-77 | the grouped terms are exactly the token texts |
| Inverted.PositionsStep | src/index/inverted.rs:72-77 | each token adds its position to its own term's list only |
| Inverted.PositionsCount | src/index/inverted.rs:72-83 | a term's position list is as long as its number of occurrences, and non-empty exactly when it occurs |
| Inverted.GroupByTerm | src/index/inverted.rs:69-77 | the grouping loop maps each distinct token text to its positions in token order |
| Inverted.NewPostingFrequency | src/index/inverted.rs:81-86 | each new posting's `term_freq` equals the number of its positions, which is the term's occurrence count |
| Inverted.InvertedIndex.constructor | src/index/inverted.rs:36-44 | a new index has no postings, no documents, no tokens and an empty dictionary |
| Inverted.InvertedIndex.SearchTerm | src/index/inverted.rs:101-103 | the posting list of the term if it has one, otherwise none |
| Inverted.InvertedIndex.AddDocument | src/index/inverted.rs:68-99 | `add_document` succeeds, increments `doc_count` by 1 and `total_tokens` by the token count, and appends one posting per distinct term (positions in token order) while keeping the dictionary's counts |
| Inverted.InvertedIndex.AppendAll | src/index/inverted.rs:80-93 | the second loop appends one posting per grouped term and leaves the counters alone |
| Inverted.InvertedIndex.AppendPosting | src/index/inverted.rs:88-92 | the posting goes at the end of the term's list (created empty if absent) and the dictionary records the list's new length |
| Inverted.FuzzyPrefix | src/index/inverted.rs:136-140 | the verbatim part of the query is a prefix of it |
| Inverted.Candidates | src/index/inverted.rs:143-157 | every candidate is a dictionary term with the prefix whose remainder is within `max_distance` of the query's remainder, with that distance |
| Inverted.AtDistance | src/index/inverted.rs:160 | the matches at one distance, kept in their order |
| Inverted.WithinSplit | src/index/inverted.rs:160 | taking out the lowest distance of a range leaves the rest of the range |
| Inverted.ByDistanceWithin | src/index/inverted.rs:160 | the reordering from distance `d` holds exactly the matches with distance from `d` up |
| Inverted.ByDistanceSorted | src/index/inverted.rs:160 | the reordering is by non-decreasing distance |
| Inverted.FuzzyOrder | src/index/inverted.rs:160 | `sort_by_key` on distance is a permutation of the candidates by non-decreasing distance |
| Inverted.CollectCandidates | src/index/inverted.rs:143-157 | the candidate loop collects the specified candidates in dictionary order |
| Inverted.ByDistanceMembers | src/index/inverted.rs:160 | reordering keeps exactly the candidates |
| Inverted.FuzzySearch | src/index/inverted.rs:132-163 | `fuzzy_search` succeeds with the candidates ordered by distance; every result is a dictionary term within `max_distance`, and the results are by non-decreasing distance |
| SkipListIndex.ISqrt | src/index/skiplist.rs:17 | the skip interval is the integer square root of the posting count |
| SkipListIndex.Build | src/index/skiplist.rs:16-37 | one entry per posting with the same doc ids in order; `skip_to` is `i + interval` only when `(i+1) % interval == 0` and `i + interval < len`; every skip points forward |
| SkipListIndex.Find | src/index/skiplist.rs:39-59 | a returned index holds a doc id at least the target; on strictly ascending entries it is the least such index, and `None` comes back exactly when every doc id is below the target |
| Transactions.WriteSetLastWrite | src/core/transaction.rs:99-125 | replaying the op log: a document is in the write set exactly when the last operation on its id wrote it, and then it is that operation's document |
| Transactions.Transaction.Begin | src/core/transaction.rs:43-57 | `begin` yields an Active transaction with an empty op log, read set and write set, on the controller's current snapshot |
| Transactions.Transaction.Read | src/core/transaction.rs:60-92 | a non-active transaction errors; a pending write is returned first; otherwise the read is recorded as `read_set[id] = snapshot.version` |
| Transactions.Transaction.Insert | src/core/transaction.rs:95-105 | fails with InvalidState unless Active; otherwise `write_set[doc.id] = doc` and one `Insert` op is appended |
| Transactions.Transaction.Update | src/core/transaction.rs:108-118 | fails with InvalidState unless Active; otherwise `write_set[id] = doc` and one `Update` op is appended |
| Transactions.Transaction.Delete | src/core/transaction.rs:121-131 | fails with InvalidState unless Active; otherwise the id leaves the write set and one `Delete` op is appended |
| Transactions.Transaction.Log | src/core/transaction.rs:99-128 | logging an operation appends it and applies it to the write set, keeping the write set the replay of the log |
| Transactions.Transaction.ValidateReads | src/core/transaction.rs:180-192 | validation passes exactly when every recorded read version is the current snapshot version |
| Transactions.Transaction.Commit | src/core/transaction.rs:135-161 | a non-active transaction errors unchanged; outside ReadCommitted a stale read aborts it with an error and clears its state; otherwise it returns the op log in order and becomes Committed |
| Transactions.Transaction.Rollback | src/core/transaction.rs:164-166 | rollback aborts |
| Transactions.Transaction.Abort | src/core/transaction.rs:168-177 | `abort` sets Aborted and clears the op log, read set and write set |
| Transactions.TransactionManager.constructor | src/core/transaction.rs:209-214 | a new manager has no transactions |
| Transactions.TransactionManager.BeginTransaction | src/core/transaction.rs:217-221 | a fresh Active transaction is registered under its id |
| Transactions.TransactionManager.GetTransaction | src/core/transaction.rs:224-226 | the transaction registered under the id, if any |
| Transactions.TransactionManager.Cleanup | src/core/transaction.rs:229-235 | keeps exactly the Active and Preparing transactions |
| Transactions.TransactionManager.Stats | src/core/transaction.rs:238-256 | `total` is the number registered, and `active`/`preparing` count the transactions in each state |
| Transactions.CleanedStats | src/core/transaction.rs:229-256 | after `cleanup`, `active + preparing == total` |
| Mvcc.NextVersion | src/mvcc/controller.rs:82 | `fetch_add(1)` on the version counter adds one, wrapping to 0 after `u64::MAX` |
| Mvcc.SumDocCounts | src/mvcc/controller.rs:85-87 | the loop sums the segments' document counts |
| Mvcc.MinOf | src/mvcc/controller.rs:124 | the least active transaction id |
| Mvcc.GcBelowLimit | src/mvcc/controller.rs:120 | at or below `max_versions` nothing is collected |
| Mvcc.GcAboveLimit | src/mvcc/controller.rs:119-133 | above the limit with some transaction active, exactly the versions at or after the oldest active id stay, with their snapshots; the `min_keep` escape never applies |
| Mvcc.GcNoActive | src/mvcc/controller.rs:124-131 | with no active transaction a collection leaves at most version `u64::MAX` |
| Mvcc.GcIdleEmpties | src/mvcc/controller.rs:106-133 | with no active transaction a collection removes every version, and `current_snapshot` then falls back to the empty default |
| Mvcc.MvccController.constructor | src/mvcc/controller.rs:63-70 | a new controller has no versions, no active transactions, counter 0 and `max_versions` 100 |
| Mvcc.MvccController.CurrentSnapshot | src/mvcc/controller.rs:106-117 | the snapshot stored under counter−1 (0 when the counter is 0), or the empty default when absent |
| Mvcc.MvccController.CreateSnapshotWithDeletes | src/mvcc/controller.rs:77-104 | the snapshot takes the previous counter value as its version and the sum of its segments' doc counts; the counter goes up by one; the snapshot is stored under its version before GC runs, and survives GC when a transaction at or before it is active |
| Mvcc.MvccController.GcOldVersions | src/mvcc/controller.rs:119-133 | the versions become the collected map |
| Mvcc.MvccController.MinActiveTxn | src/mvcc/controller.rs:122-125 | the oldest active transaction id, `u64::MAX` when none |
| Mvcc.MvccController.BeginTransaction | src/mvcc/controller.rs:135-145 | registers a transaction id equal to the current counter, on the current snapshot, with no operations |
| Mvcc.MvccController.CommitTransaction | src/mvcc/controller.rs:147-150 | removes the transaction's id and never fails |
| Mvcc.MinUnique | src/mvcc/controller.rs:124 | the least active id is unique |
| MergePolicy.SmallSegments | src/storage/merge_policy.rs:40-42 | the segments under 10 MiB, in order: a segment is kept exactly when it is one of the inputs and is under 10 MiB |
| MergePolicy.ShouldMerge | src/storage/merge_policy.rs:33-46 | true whenever there are more segments than `max_segments_per_tier`; otherwise true exactly when at least `min_segments_to_merge` segments are under 10 MiB |
| MergePolicy.ManySmallMerge | src/storage/merge_policy.rs:40-45 | enough small segments trigger a merge whatever the segment count |
| MergePolicy.InsertBySize | src/storage/merge_policy.rs:51 | inserting one segment into the sort adds exactly that segment |
| MergePolicy.PrependSorted | src/storage/merge_policy.rs:51 | a segment no larger than any of a size-sorted sequence can go in front and keep it sorted |
| MergePolicy.InsertSorted | src/storage/merge_policy.rs:51 | insertion keeps a size-sorted sequence sorted |
| MergePolicy.SortBySize | src/storage/merge_policy.rs:50-51 | `sort_by_key` on the size is a permutation of the segments |
| MergePolicy.SortBySizeSorted | src/storage/merge_policy.rs:51 | `sort_by_key` on the size leaves the segments in ascending size order |
| MergePolicy.GreedySubset | src/storage/merge_policy.rs:58-76 | the scan picks each segment at most as often as it occurs among the inputs |
| MergePolicy.AppendSorted | src/storage/merge_policy.rs:69 | pushing a segment no smaller than every pick keeps the picks in ascending size order |
| MergePolicy.GreedySorted | src/storage/merge_policy.rs:51-76 | over size-sorted segments the scan picks in ascending size order |
| MergePolicy.GreedyLimits | src/storage/merge_policy.rs:60-75 | every pick is at most half the merge size, the picks together fit in the merge size, and at most `max_segments_to_merge` are picked (one pick is always allowed before the count check) |
| MergePolicy.MultisetPrefix | src/storage/merge_policy.rs:58 | the segments scanned so far are a sub-multiset of all of them |
| MergePolicy.Scan | src/storage/merge_policy.rs:54-76 | the loop with its skip, break and count check computes the greedy scan over the sorted segments |
| MergePolicy.SelectSegmentsToMerge | src/storage/merge_policy.rs:48-84 | the selection is drawn from the inputs, in ascending size order, no pick over half of `max_segment_size_mb` MiB, total within it, at most `max(1, max_segments_to_merge)` picks, and empty when fewer than `min_segments_to_merge` were picked |
| Merger.MinDocId | src/parallel/merger.rs:59-62 | the least `min_doc_id` of the inputs, attained by one of them; `DocId(0)` when there are none |
| Merger.MaxDocId | src/parallel/merger.rs:63-66 | the greatest `max_doc_id` of the inputs, attained by one of them; `DocId(0)` when there are none |
| Merger.Merge | src/parallel/merger.rs:44-74 | `merge` always succeeds with the fresh id; the merged doc id range covers every input's range; no inputs give zero counts and DocId(0) bounds; one input keeps its count and metadata |
| Merger.MergeSplitMetadata | src/parallel/merger.rs:46-66 | merging a group in two halves and combining the halves gives the same metadata: sizes add and the doc id range is the hull |
| Merger.MergeSplitCount | src/parallel/merger.rs:45 | the merged document count is additive over a split, modulo 2^32 as the `u32` sum wraps |
| Merger.TruncAdd | src/parallel/merger.rs:45 | cutting to 32 bits before or after an addition gives the same sum |
| Merger.MinSplit | src/parallel/merger.rs:59-62 | the least `min_doc_id` of a concatenation is the lesser of the halves' |
| Merger.MaxSplit | src/parallel/merger.rs:63-66 | the greatest `max_doc_id` of a concatenation is the greater of the halves' |
| Merger.TotalsAppend | src/parallel/merger.rs:45-48 | the document-count and size sums over a concatenation are the sums over its halves added |
| Text.WordLength | src/query/parser.rs:42 | the run of non-whitespace characters a string starts with, ended by whitespace or the end |
| Text.SplitWhitespace | src/query/parser.rs:42-51 | `split_whitespace` yields only non-empty words free of whitespace |
| Text.WordLengthUnique | src/query/parser.rs:42 | the leading word ends exactly at the first whitespace character or at the end of the string |
| Text.SplitWord | src/query/parser.rs:42-51 | a non-empty whitespace-free string is a single word |
| Text.SplitAtWhitespace | src/query/parser.rs:42-51 | a whitespace character splits the words into those before it followed by those after it; with `Text.SplitWord` this pins the words down as the maximal non-whitespace runs in order |
| Text.SplitWhitespaceEmpty | src/query/parser.rs:42-46 | `split_whitespace` finds no word exactly when the string is all whitespace |
| Text.IndexOf | src/query/parser.rs:68 | `find(':')` gives the first index holding the character, and none exactly when it is absent |
| Text.FindFrom | src/query/parser.rs:155 | the first occurrence of the separator at or after a position, none when there is no later occurrence |
| Text.Split | src/query/parser.rs:155 | `split` on a non-empty separator yields at least one piece |
| Text.SplitJoin | src/query/parser.rs:155 | joining the pieces of `split` with the separator gives the string back |
| Text.TrimStart | src/query/parser.rs:152 | `trim_start_matches` removes exactly the longest leading run of stripped characters: everything removed is stripped, and what is left does not start with a stripped character |
| Text.TrimEnd | src/query/parser.rs:153 | `trim_end_matches` removes exactly the longest trailing run of stripped characters: everything removed is stripped, and what is left does not end with a stripped character |
| Matcher.CheckAdjacent | src/query/matcher.rs:122-147 | the loops return true exactly when the list of lists is non-empty and some position p of the first list has p+k, taken modulo 2^32, in list k for every k |
| Matcher.FirstWithin | src/query/matcher.rs:166-167 | `iter().find` gives the first position within [cur+1, cur+slop+1], none when no position lies in it |
| Matcher.CheckProximity | src/query/matcher.rs:150-182 | the loops return true exactly when the list of lists is non-empty and from some start position the chain of first-in-window positions reaches the last list; the window ends `cur+1` and `cur+slop+1` wrap modulo 2^32 |
| Matcher.OffsetIsSum | src/query/matcher.rs:134 | stepping `current += 1` d times from p gives (p+d) modulo 2^32 |
| Matcher.AdjacentAcrossWrap | src/query/matcher.rs:121-146 | position 2^32-1 followed by position 0 counts as adjacent, since `current + 1` wraps |
| Matcher.MaxSlopWindowEmpty | src/query/matcher.rs:160-164 | with slop 2^32-1 the window wraps to the empty range [cur+1, cur], so positions 0 and 5 are not within the slop |
| Matcher.ChainZero | src/query/matcher.rs:163-172 | with slop 0 every step of the chain is the adjacency test p+1 |
| Matcher.ProximityZeroIsAdjacent | src/query/matcher.rs:122-182 | with slop 0 `check_proximity_positions` agrees with `check_adjacent_positions` |
| Matcher.PostingFor | src/query/matcher.rs:91-96 | the first posting of the document in a posting list; none exactly when the document has no posting |
| Matcher.PhrasePositions | src/query/matcher.rs:81-107 | positions are collected exactly when every phrase term has a posting list holding the document, one position list per term |
| Matcher.MatchesPhrase | src/query/matcher.rs:74-119 | a phrase matches only if it is non-empty and each of its terms has a posting for the document |
| Matcher.MatchesTerm | src/query/matcher.rs:59-71 | a term matches exactly when its field (any text field for `_all`) is text that contains the value, both lower-cased |
| Matcher.NumberInRange | src/query/matcher.rs:243-269 | true exactly when every numeric bound present holds: gt strict, gte, lt strict, lte; non-numeric bounds are ignored |
| Matcher.MatchesRange | src/query/matcher.rs:225-241 | a missing field never matches; a number matches exactly when it is within the bounds; a date always matches; text and Boolean values never match |
| Matcher.MatchesPrefix | src/query/matcher.rs:296-313 | only a text field can match a prefix query |
| Matcher.AnyWordStartsWith | src/query/matcher.rs:302-307 | the loop returns true exactly when some word starts with the prefix |
| Matcher.MatchPrefix | src/query/matcher.rs:296-313 | `matches_prefix` returns true exactly when the field is text and one of its whitespace-separated words starts with the prefix |
| Matcher.PrefixAtWordStart | src/query/matcher.rs:296-313 | a whitespace-free prefix matches exactly when it occurs in the text field at the start of a word; a prefix holding whitespace never matches |
| Text.WordsStartingWith | src/query/matcher.rs:302-303 | a whitespace-free text begins some word of `split_whitespace` exactly when it occurs at a word start of the string |
| Matcher.WildcardRegex | src/query/matcher.rs:322-324 | a pattern without `*` or `?` is its own regex |
| Matcher.MatchesWildcard | src/query/matcher.rs:315-334 | only a text field can match a wildcard query |
| Matcher.WildcardMeaning | src/query/matcher.rs:315-334 | a missing or non-text field never matches; a pattern without `*` or `?` matches exactly when the regex engine matches the pattern itself; a regex that fails to compile matches nothing |
| Matcher.MatchesFuzzy | src/query/matcher.rs:336-350 | the absent `max_edits` unwrap is reached exactly when the field is text and `max_edits` is absent |
| Matcher.Matches | src/query/matcher.rs:25-57 | MatchAll matches every document; on a query whose fuzzy clauses all carry `max_edits`, `matches` returns the query's truth under the matching rules |
| Matcher.AllOf | src/query/matcher.rs:187-219 | the `must` and `filter` loops succeed with true exactly when every clause matches |
| Matcher.AnyOf | src/query/matcher.rs:194-211 | the `must_not` and `should` loops succeed with true exactly when some clause matches |
| Matcher.MatchesBool | src/query/matcher.rs:185-222 | a Bool query matches exactly when all must clauses match, no must_not clause matches, some should clause matches when there are any, and all filter clauses match |
| Validator.DefaultConfig | src/query/types.rs:118-126 | the default limits are 1024 clauses, depth 10, 1000 wildcard terms and no leading wildcard |
| Validator.ValidateDepth | src/query/types.rs:147-172 | the only error the depth check reports is the depth-exceeded error |
| Validator.ValidateAll | src/query/types.rs:158-166 | the only error a clause-list check reports is the depth-exceeded error |
| Validator.ValidateDepthIff | src/query/types.rs:147-172 | the depth check at `depth` passes exactly when the deepest node over must/should/must_not lies within the limit |
| Validator.ValidateAllIff | src/query/types.rs:158-166 | a clause list passes exactly when it is empty or its deepest node lies within the limit |
| Validator.ValidateBoolClauses | src/query/types.rs:174-189 | passes exactly when the top-level must+should+must_not count is within the limit; fails with the clause error otherwise |
| Validator.Validate | src/query/types.rs:141-145 | passes exactly when the depth and the top-level clause count are within the limits; a depth violation is reported first; every error is InvalidInput |
| Validator.FilterIgnored | src/query/types.rs:156-178 | adding a filter clause changes neither check |
| Planner.Plan | src/query/planner.rs:16-58 | a term plans to an index seek on its field and value; a Bool with must clauses to the intersection of their plans, one with only should clauses to their union; everything else to a scan of `content` |
| Planner.PlanAll | src/query/planner.rs:27-37 | the `map(plan)` over a clause list plans each clause in order |
| Planner.PlanShape | src/query/planner.rs:16-58 | `plan` never builds a filter, sort, limit or difference |
| Optimizer.FilterPushdown | src/query/optimizer.rs:18-37 | fires exactly on a sort over a filter, giving the filter over the sort of the filter's input |
| Optimizer.LimitMerge | src/query/optimizer.rs:48-62 | fires exactly on a limit over a limit, giving one limit of the smaller count over the inner input |
| Optimizer.Optimize | src/query/optimizer.rs:82-90 | the loop applies each rule once, in order, keeping the plan when a rule does not fire |
| Optimizer.LimitMergeSound | src/query/optimizer.rs:52-55 | taking n of the first m rows is taking min(n, m) rows |
| Optimizer.DefaultRulesAtRoot | src/query/optimizer.rs:72-90 | the default optimizer only rewrites the root: a plan rooted in neither pattern is unchanged, and each pattern is rewritten as its rule says |
| QueryParser.NewParser | src/query/parser.rs:22-29 | the default field is `content`, the operator OR, wildcards and fuzzy enabled |
| QueryParser.ParseFieldValue | src/query/parser.rs:187-195 | a value that reads as a number is that number; one that does not but reads as a date is that date; anything else stays text |
| QueryParser.Routed | src/query/parser.rs:129-139 | the term queries routed are non-operator tokens on the default field |
| QueryParser.ParseBooleanQuery | src/query/parser.rs:115-145 | the loop builds the Bool query whose must and should clauses are the terms read under AND and OR |
| QueryParser.BoolOfRoutesEveryTerm | src/query/parser.rs:120-144 | every non-operator token lands in exactly one of must and should; must_not and filter stay empty |
| QueryParser.ParseRange | src/query/parser.rs:147-185 | a range parses exactly when its inner text splits into two parts on " TO ", else the Parse error; `[` sets gte else gt, a trailing `]` sets lte else lt |
| QueryParser.RangeBounds | src/query/parser.rs:155-170 | the two bounds are the values of the texts on either side of " TO " |
| QueryParser.Parse | src/query/parser.rs:40-113 | `parse` is the case analysis blank, quoted phrase, boolean operators, field:value, default term |
| QueryParser.ParseBlank | src/query/parser.rs:42-46 | an empty or all-whitespace input parses to MatchAll, and nothing else does |
| QueryParser.ParsePhrase | src/query/parser.rs:49-60 | a quoted input parses to a slop-0 phrase on the default field with non-empty, whitespace-free words |
| QueryParser.ParseErrors | src/query/parser.rs:68-158 | parsing fails only on a field query whose value opens a bracket and does not split into two parts on " TO " |
| QueryParser.ParseFieldSplit | src/query/parser.rs:68-70 | a field query splits at the first ':': the field holds no ':' and field, ':' and value give back the input |
| Fuzzy.Distance | src/search/fuzzy.rs:67-72 | the Levenshtein distance over bytes; an empty term gives the other's length and an empty other the term's length |
| Fuzzy.EditDistance | src/search/fuzzy.rs:61-107 | the two-row dynamic programme returns exactly the Levenshtein distance; the transposition branch never lowers a cell |
| Fuzzy.FillRow | src/search/fuzzy.rs:78-100 | one pass of the outer loop turns row i-1 of the distance table into row i: each cell the least of deletion, insertion and substitution |
| Fuzzy.LevLower | src/search/fuzzy.rs:74-106 | the distance is at least the difference of the lengths |
| Fuzzy.LevUpper | src/search/fuzzy.rs:74-106 | the distance is at most the longer length |
| Fuzzy.LevSymmetric | src/search/fuzzy.rs:74-106 | the distance does not depend on which side is the term |
| Fuzzy.LevZeroEqual | src/search/fuzzy.rs:74-106 | distance 0 only between equal strings |
| Fuzzy.LevEqualZero | src/search/fuzzy.rs:74-106 | equal strings are at distance 0 |
| Fuzzy.DistanceFacts | src/search/fuzzy.rs:61-107 | `edit_distance` is 0 exactly on equal strings, at least the length difference, at most the longer length, and symmetric |
| Fuzzy.NewAutomaton | src/search/fuzzy.rs:21-28 | a new automaton keeps the term and limit, has transpositions on and no DFA |
| Fuzzy.Matches | src/search/fuzzy.rs:42-58 | with a DFA, a candidate matches exactly when the DFA's end state has an exact distance within the limit; without one, exactly when the edit distance is within the limit |
| Fuzzy.TermMatchesItself | src/search/fuzzy.rs:54-57 | without a DFA the term always matches itself |
| Fuzzy.RunConcat | src/search/fuzzy.rs:219-228 | running the transitions over two pieces is running over the second from where the first ends |
| Fuzzy.RunStuck | src/search/fuzzy.rs:221-227 | a byte with no transition from the state reached so far makes the whole run fail |
| Fuzzy.LevenshteinDfa.constructor | src/search/fuzzy.rs:132-136 | the automaton `build` starts from: no states, no transitions, the given maximum distance |
| Fuzzy.LevenshteinDfa.GetOrCreateState | src/search/fuzzy.rs:197-215 | the id is position*(max+1)+distance; an id past the end grows the states with fillers up to it and puts there a fresh non-final state with that id and distance; otherwise nothing changes; either way the returned id indexes the states, and the state there is a filler or carries that id |
| Fuzzy.LevenshteinDfa.Matches | src/search/fuzzy.rs:218-235 | None when some byte has no transition; otherwise the end state's distance if it exists and is final, else None |
| Fuzzy.StateIdInjective | src/search/fuzzy.rs:198 | distinct (position, distance) pairs with distances within the maximum get distinct state ids |
| Prefix.Parts | src/search/prefix.rs:77-104 | `split('*')` always yields at least one part |
| Prefix.MatchesWildcard | src/search/prefix.rs:103-134 | the loop over the parts computes the wildcard match: empty parts skipped, part 0 a prefix, the last a suffix of the rest, middle parts found left to right |
| Prefix.PartsNoStar | src/search/prefix.rs:104 | a pattern without `*` is one part |
| Prefix.NoStarNowhere | src/search/prefix.rs:104 | a pattern without `*` has no `*` to split at |
| Prefix.PartsTrailingStar | src/search/prefix.rs:77-84 | `p*` with no other `*` splits into `p` and the empty part |
| Prefix.PartsAllStars | src/search/prefix.rs:104 | a pattern of stars only splits into empty parts |
| Prefix.StarsMatchEverything | src/search/prefix.rs:107-110 | a pattern made only of `*` matches every text, since empty parts are skipped |
| Prefix.NoStarIsPrefix | src/search/prefix.rs:112-117 | a pattern without `*` matches exactly the texts that start with it |
| Prefix.GreedyIsInOrder | src/search/prefix.rs:118-130 | from part 1 on, the greedy loop succeeds exactly when the remaining parts can be placed in order, the last as a suffix |
| Prefix.GreedyLast | src/search/prefix.rs:118-122 | the last non-empty part must be a suffix of the remaining text |
| Prefix.GreedySkip | src/search/prefix.rs:108-110 | an empty middle part is skipped without moving the position |
| Prefix.GreedyMissing | src/search/prefix.rs:125-128 | a middle part absent from the rest of the text cannot be placed |
| Prefix.GreedyFound | src/search/prefix.rs:124-126 | taking the first occurrence of a middle part loses no placement |
| Prefix.FoundFirst | src/search/prefix.rs:125-126 | the parts can be placed exactly when the rest can be placed after the first occurrence of the current part |
| Prefix.WildcardIsGlob | src/search/prefix.rs:103-134 | with a `*` in the pattern the match is glob matching: first part a prefix, last part a suffix, middle parts in order, without overlap |
| Prefix.PrefixNotBelow | src/search/prefix.rs:60 | a key that starts with the prefix is not below it in byte order |
| Prefix.PrefixBlock | src/search/prefix.rs:60-65 | in byte order the keys with a prefix form one block |
| Prefix.NewIndex | src/search/prefix.rs:18-24 | a new index has no terms and the given minimum prefix length |
| Prefix.Filter | src/search/prefix.rs:89-98 | keeping the terms that satisfy the test keeps exactly those, in order |
| Prefix.FirstAtLeast | src/search/prefix.rs:60 | `range().ge(p)` starts at the first key not below `p` |
| Prefix.BelowHasNoPrefix | src/search/prefix.rs:60 | no key below the prefix starts with it |
| Prefix.AfterRunHasNoPrefix | src/search/prefix.rs:63-65 | on sorted keys, once a key at or above the prefix lacks it, no later key has it, so the break loses nothing |
| Prefix.PrefixRun | src/search/prefix.rs:60-70 | the keys streamed before the break are exactly the keys with the prefix |
| Prefix.SearchPrefix | src/search/prefix.rs:51-73 | the streaming loop returns nothing for a prefix shorter than the minimum and otherwise the sorted keys that start with it |
| Prefix.PrefixResultsMembers | src/search/prefix.rs:51-73 | a key is a result exactly when the prefix is long enough, the key is indexed and starts with the prefix |
| Prefix.SearchWildcard | src/search/prefix.rs:76-101 | the prefix shortcut for `p*`, else the indexed keys that match the pattern, in order |
| Prefix.TrailingStarIsPrefix | src/search/prefix.rs:84-86 | `search_wildcard("p*")` equals `search_prefix("p")` |
| Prefix.TrailingStarMatchesPrefix | src/search/prefix.rs:84-134 | `p*` matches exactly the texts starting with `p`, so the shortcut keeps what the scan would keep, apart from the minimum prefix length |
| Results.LowestIndex | src/search/results.rs:32-79 | under the reversed ordering the heap's top is a lowest-scored document |
| Results.RemoveAt | src/search/results.rs:78 | `pop` removes exactly one document |
| Results.PeekScore | src/search/results.rs:33-94 | `max_score` as written: 0 on an empty heap, otherwise a retained score no higher than any other, the lowest |
| Results.HighestScore | src/search/results.rs:92-94 | the highest retained score, or 0 on an empty heap |
| Results.MaxScoreIsLowest | src/search/results.rs:33-94 | with documents scored 1 and 2 kept `max_score` answers 1 while `get_results` leads with 2 |
| Results.ConsNonIncreasing | src/search/results.rs:88 | a document scoring at least every score of a descending sequence can lead it |
| Results.Insert | src/search/results.rs:88 | inserting into a score-descending sequence keeps it descending and adds exactly that document |
| Results.SortByScore | src/search/results.rs:86-90 | the sort puts the documents in non-increasing score order and is a permutation |
| Results.OverflowBounded | src/search/results.rs:74-82 | popping the lowest of an overfilled heap and taking the new lowest score as the bound keeps every kept score at or above the bound and every dropped score at or below it |
| Results.OverflowAccounted | src/search/results.rs:74-82 | popping the lowest of an overfilled heap keeps at most k kept and kept plus dropped equal to collected |
| Results.KeepAccounted | src/search/results.rs:74-76 | pushing into a heap with room keeps the accounting, and the bound when the score is non-negative |
| Results.RejectAccounted | src/search/results.rs:74 | turning a document away from a full heap keeps the accounting and the bound |
| Results.TopKCollector.constructor | src/search/results.rs:62-69 | `new(k)` starts with an empty heap, `min_score` 0 and `total_collected` 0 |
| Results.TopKCollector.Collect | src/search/results.rs:71-84 | counts every document; keeps it when it beats the bound or the heap has room; on overflow pops a lowest document and takes the new lowest score as the bound; the heap never holds more than k and kept plus dropped is what was collected |
| Results.TopKCollector.KeepsBest | src/search/results.rs:71-84 | on non-negative scores every kept document scores at least as high as every dropped one, and the heap holds min(k, collected) documents |
| Results.TopKCollector.GetResults | src/search/results.rs:86-90 | the kept documents, in non-increasing score order |
| Results.TopKCollector.MaxScore | src/search/results.rs:92-94 | the heap-top score, the lowest retained, or 0 when empty |
| Pool.WrappingAdd | src/memory/pool.rs:101 | `usize` addition with wrap-around: the plain sum below 2^64, else the sum less 2^64, which is below the first operand |
| Pool.WrappingSub | src/memory/pool.rs:103-110 | `fetch_sub` with wrap-around: the plain difference when it is non-negative, else the difference plus 2^64 |
| Pool.WrapRoundTrip | src/memory/pool.rs:101-103 | a wrapping add undone by a wrapping sub of the same amount, and the other way round, gives the value back |
| Pool.TrackerAllocateAsWritten | src/memory/pool.rs:100-107 | `allocate` as written: a refusal restores the usage and reports OutOfMemory; without overflow a request is granted exactly when usage plus size is within the limit |
| Pool.OverflowingRequestGranted | src/memory/pool.rs:101-102 | with 10 bytes in use and a limit of 100 a request for `usize::MAX - 4` bytes is granted and the usage drops to 5 |
| Pool.TrackerAllocate | src/memory/pool.rs:100-107 | granted exactly when usage plus size is within the limit, and then usage grows by size; a refusal leaves usage alone and reports OutOfMemory |
| Pool.UsageStaysWithinLimit | src/memory/pool.rs:100-107 | starting within the limit, no run of allocation requests takes the usage past it, and the usage never falls |
| Pool.AllocateThenDeallocate | src/memory/pool.rs:100-111 | a granted request followed by `deallocate` of the same size restores the usage |
| Pool.MemoryTracker.constructor | src/memory/pool.rs:93-98 | a new tracker has usage 0 and the given limit |
| Pool.MemoryTracker.Allocate | src/memory/pool.rs:100-107 | the new usage and the result are those of the intended allocation rule |
| Pool.MemoryTracker.Deallocate | src/memory/pool.rs:109-111 | usage goes down by size, wrapping as `fetch_sub` does |
| Pool.MemoryTracker.CurrentUsage | src/memory/pool.rs:113-115 | the current usage |
| Pool.FirstFitFrom | src/memory/pool.rs:30-36 | the first block from a given index on that is free and large enough, none when there is none |
| Pool.FirstFit | src/memory/pool.rs:28-37 | the first block that is free and large enough; none exactly when no block is |
| Pool.SetInUse | src/memory/pool.rs:32-42 | one block's in-use flag set, every other block unchanged |
| Pool.AllocationsDistinct | src/memory/pool.rs:28-37 | a block once handed out is not handed out again before it is freed |
| Pool.AllocateThenFree | src/memory/pool.rs:28-46 | freeing the block just handed out restores the blocks |
| Pool.MemoryPool.constructor | src/memory/pool.rs:48-70 | `num_blocks` free blocks of `block_size`, all on the free list in order, `total_size` = num_blocks * block_size and `used_size` 0 |
| Pool.MemoryPool.Allocate | src/memory/pool.rs:28-37 | marks and returns the first free block large enough, or nothing and no change; the free list and counters are untouched |
| Pool.MemoryPool.Deallocate | src/memory/pool.rs:39-46 | frees only the block at the address given, if there is one; nothing else changes |
| BufferPool.Zeros | src/memory/buffer_pool.rs:55 | `vec![0u8; n]` holds n zero bytes |
| BufferPool.Pow2Monotone | src/memory/buffer_pool.rs:45-60 | powers of two grow with their exponent |
| BufferPool.CeilLog2From | src/memory/buffer_pool.rs:45-60 | the least exponent from a start whose power of two reaches n |
| BufferPool.CeilLog2 | src/memory/buffer_pool.rs:45-60 | the exponent of `next_power_of_two(n)`: its power reaches n and the one below does not |
| BufferPool.NextPow2Least | src/memory/buffer_pool.rs:45-60 | `next_power_of_two(n)` is at least n and at most any power of two that reaches n |
| BufferPool.NextPow2OfPow2 | src/memory/buffer_pool.rs:45-60 | a power of two is its own size class |
| BufferPool.BufferPool.constructor | src/memory/buffer_pool.rs:28-41 | an empty queue for each of the classes 256, 1024, 4096, 16384 and 65536, memory counter 0 |
| BufferPool.BufferPool.Get | src/memory/buffer_pool.rs:44-56 | pops the front buffer of class `next_power_of_two(size)` if one is queued, otherwise returns a fresh zeroed buffer as long as the class; the class set and the 100-buffer bound are kept |
| BufferPool.BufferPool.ReturnBuffer | src/memory/buffer_pool.rs:59-69 | clears the buffer and pushes it at the back of its capacity's class only if that class exists and holds fewer than 100; no queue ever exceeds 100 |
| BufferPool.GetInClass | src/memory/buffer_pool.rs:44-56 | what `get` hands out is in the requested class: a parked empty buffer of that class, or a fresh one whose length is the class and at least the size asked for |
| NGram.Gram | src/analysis/filters/ngram.rs:24-32 | a gram of n characters has text and length n |
| NGram.Filter | src/analysis/filters/ngram.rs:16-38 | the token loop produces each token's grams in turn |
| NGram.PushTokenGrams | src/analysis/filters/ngram.rs:20-34 | the length loop pushes a token's grams for n from `min_gram` to min(`max_gram`, length) |
| NGram.PushGramsOfLength | src/analysis/filters/ngram.rs:23-33 | the start loop pushes the grams of n characters, left to right |
| NGram.GramsBelowSound | src/analysis/filters/ngram.rs:22-32 | every gram is a run of the token's characters at the offset that locates it, with the token's position and type |
| NGram.GramsBelowComplete | src/analysis/filters/ngram.rs:22-32 | every run of the token's characters of an allowed length is among the grams |
| NGram.GramsBelowOrdered | src/analysis/filters/ngram.rs:22-23 | the grams come shortest first, left to right within one length |
| NGram.TokenGramsExact | src/analysis/filters/ngram.rs:19-35 | a token's grams are exactly its runs of `min_gram` to min(`max_gram`, length) characters, in length then offset order; a token shorter than `min_gram` yields nothing |
| NGram.GramsBelowCount | src/analysis/filters/ngram.rs:22-23 | a token of L characters yields L-n+1 grams for each length n |
| NGram.FilterSpecConcat | src/analysis/filters/ngram.rs:19-35 | filtering a stream is filtering its parts in turn |

## Left out

- Concurrency. Every `Mutex`, `RwLock`, `Arc` and atomic is a plain field updated in one step, so interleavings between threads are not modelled.
- Floating point. `f32`/`f64` values are reals, so rounding, NaN and infinities are not modelled. The skip interval is the exact integer square root rather than `(n as f32).sqrt() as usize`, which can differ for very long lists.
- Float-based operations: `SimdOps::score_documents`, `SimdOps::dot_product`, `LogStructuredMergePolicy`, `SegmentMerger::select_merges` and the scoring code. All are float arithmetic over `log10` or `sqrt`.
- `CompressedBlock` with LZ4, Zstd and Snappy. These are foreign codecs; only the integer encodings None, Delta and VByte are modelled.
- Timestamps (`created_at` in segment and snapshot metadata, chrono). They are not read by any modelled operation.
- `SegmentId::new()`. Its random id is a parameter (`newId`) of `Merger.Merge`.
- Foreign calls are parameters. Each is given by an argument to the model:
  - regex matching in `matches_wildcard` (regex crate);
  - `to_lowercase`;
  - the engine's `levenshtein_distance` utility;
  - `str::parse::<f64>`;
  - RFC 3339 date parsing.
- `FuzzyAutomaton::build` and the `levenshtein_automata` DFA. The DFA is an abstract function from candidate to distance.
- `LevenshteinDFA::build` / `build_from_pattern`. Only the state numbering (`get_or_create_state`) and the run of `matches` are modelled.
- `PrefixIndex::build` and the `fst` map. The map is its keys as a byte-wise sorted sequence, and the term-frequency `BTreeMap` is not modelled.
- Keys that are not valid UTF-8, which `search_prefix` and `search_wildcard` skip. Keys here are strings, so every key is valid.
- `Transaction::read` consults the snapshot's segments, which hold no searchable documents yet. The model returns `None` there, as the engine does.
- The process-wide transaction id counter. The id is a parameter of `Transaction.Begin`.
- Pointers. `MemoryPool` block pointers are block indices, and `std::alloc` / `dealloc` and `Drop` are not modelled.
- Pool.MemoryPool.constructor: the product `num_blocks * block_size` is taken without `usize` overflow.
- BufferPool.BufferPool.Get and BufferPool.BufferPool.ReturnBuffer: `next_power_of_two` is taken without overflow past `usize::MAX`. `total_memory` and `memory_limit` are stored but never read, as in the engine.
- NGram.Filter: a gram's offset is the token's byte offset plus a character index, as in the engine. The two agree only on ASCII text.
- Merger.Merge: the `u32` sum of document counts is modelled as wrapping, as in a release build; a debug build panics instead. The sums themselves are stated by `Merger.TotalsAppend`, `Merger.MergeSplitCount` and `Merger.MergeSplitMetadata`, not by `Merge`'s own contract.
- Results.TopKCollector.Collect: keeps the "kept scores are at least every dropped score" bound only for non-negative scores. The engine's scores (idf-weighted) are non-negative. Which of several equal-scored documents the heap pops is not pinned down.
- Results.TopKCollector.GetResults: the order among equal scores is not pinned down, since `BinaryHeap::into_iter` has no fixed order.
- Matcher.Matches: relates the result to the matching rules only for queries whose fuzzy clauses carry `max_edits`. Otherwise the engine panics at `unwrap`, which is modelled as an error result.
- Matcher.MatchesPhrase: states the necessary condition (every term occurs in the document). The position test itself is stated by `Matcher.CheckAdjacent` and `Matcher.CheckProximity`.
- Matcher.MatchesWildcard: the regex engine is a parameter, so the contract states which text reaches it and how its answer is used, not what the regex matches. `Matcher.WildcardRegex` states the pattern rewrite.
- Matcher.CheckAdjacent and Matcher.CheckProximity: `u32` position arithmetic wraps modulo 2^32, as in a release build. A debug build panics on that overflow instead.
- Inverted.FuzzyPrefix and Inverted.FuzzySearch: the verbatim prefix is the first `prefix_length` characters. The engine slices the first `prefix_length` UTF-8 bytes, so the two agree on ASCII terms only, and the engine's panic on a slice that splits a multi-byte character is not modelled.
- Posting.Iter: `requires Decodable(pl)` excludes hand-built lists whose doc ids or position blocks are shorter than the term frequencies. On those the engine's iterator panics on an out-of-range index. Every list built by `Posting.New` is decodable, as its contract states.
- `usize` sums and counters are unbounded naturals, taken without wrap-around: the summed segment sizes in `Merger.Merge`, the `doc_count` and `total_tokens` counters of `Inverted.InvertedIndex.AddDocument`, and the summed document counts of `Mvcc.MvccController.CreateSnapshotWithDeletes`. Reaching 2^64 would need more documents or tokens than memory can hold.
- SkipListIndex.Find: `requires ForwardSkips(sl)` excludes lists with a jump that lands inside the list but does not go forward. On such a list the engine's loop can revisit an entry forever. A jump past the end is allowed, since the engine's bounds check skips it. Every list `build` makes satisfies the requirement, as its contract states.
- Validator.ValidateDepth and Validator.ValidateBoolClauses: the error messages are fixed texts. The engine formats the limit into the message, and the model keeps only the error kind and the condition.
- QueryParser.Parse follows the code where its doc comment disagrees: the comment says "rust programming" gives an OR query, but a string without an operator word, quote or ':' parses to one default-field term holding the whole string.
- Fuzzy.Matches: the DFA branch is stated against the abstract DFA.
- Posting.FindDoc: `binary_search`'s exact probe order is not modelled. The contract states what any binary search returns on sorted input.
- Text.Split: its own contract only bounds the number of parts. `Text.SplitJoin` states that the parts give the string back.
- Validator.ValidateDepth and Validator.ValidateAll: their own contracts name the error only. The exact condition is `Validator.ValidateDepthIff` and `Validator.ValidateAllIff`.

## Findings

| source | as written | input that shows it | evidently intended | confidence | as-written member | corrected member |
|---|---|---|---|---|---|---|
| src/search/results.rs:33-94 | `ScoredDocument`'s ordering is reversed so that the max-heap keeps its lowest score on top, and `max_score` returns that top score: the lowest retained score | documents scored 1.0 and 2.0 collected with k = 2: `max_score` returns 1.0 while `get_results` leads with 2.0 | `max_score` returns the highest retained score | not executed | Results.PeekScore, Results.MaxScoreIsLowest | Results.HighestScore |
| src/memory/pool.rs:100-107 | `fetch_add(size) + size` wraps in `usize`, so a request that overflows the sum is compared after wrap-around | usage 10, limit 100, request `usize::MAX - 4`: granted, and usage becomes 5 | a request is granted exactly when usage + size does not exceed the limit | not executed | Pool.TrackerAllocateAsWritten, Pool.OverflowingRequestGranted | Pool.TrackerAllocate (used by Pool.MemoryTracker.Allocate; Pool.UsageStaysWithinLimit) |
