/** `PrefixIndex` (src/search/prefix.rs): prefix and wildcard search over the terms
    of an FST map. Terms and patterns are taken as their UTF-8 bytes, which is what
    the FST and the byte offsets of the matcher work on; the FST itself is
    represented by its keys in byte-wise lexicographic order. */
module Prefix {
  import opened Base
  import opened Text

  type Bytes = seq<Byte>

  /** The byte of `*`. */
  const STAR: Byte := 42

  // ---------------------------------------------------------------------
  // matches_wildcard
  // ---------------------------------------------------------------------

  /** `pattern.split('*')`. */
  function Parts(pattern: Bytes): (parts: seq<Bytes>)
    ensures |parts| >= 1
  {
    Split(pattern, [STAR])
  }

  /** The loop of `matches_wildcard` from part `i` on with `pos` bytes of the text
      consumed: empty parts are skipped; part 0 must start the rest of the text and
      is consumed; the last part must end the rest of the text; a middle part is
      searched for in the rest of the text and consumed up to the end of its first
      occurrence. */
  function WildcardFrom(text: Bytes, parts: seq<Bytes>, i: nat, pos: nat): bool
    requires i <= |parts| && pos <= |text|
    decreases |parts| - i
  {
    if i == |parts| then true
    else if parts[i] == [] then WildcardFrom(text, parts, i + 1, pos)
    else if i == 0 then StartsWith(text[pos..], parts[0]) && WildcardFrom(text, parts, 1, pos + |parts[0]|)
    else if i == |parts| - 1 then EndsWith(text[pos..], parts[i])
    else
      match FindFrom(text[pos..], parts[i], 0)
      case None => false
      case Some(idx) => WildcardFrom(text, parts, i + 1, pos + idx + |parts[i]|)
  }

  /** Whether `matches_wildcard(text, pattern)` holds. */
  function Wildcard(text: Bytes, pattern: Bytes): bool
  {
    WildcardFrom(text, Parts(pattern), 0, 0)
  }

  /** `PrefixIndex::matches_wildcard`. */
  method MatchesWildcard(text: Bytes, pattern: Bytes) returns (r: bool)
    ensures r == Wildcard(text, pattern)
  {
    var parts := Split(pattern, [STAR]);
    var pos: nat := 0;
    for i := 0 to |parts|
      invariant pos <= |text|
      invariant WildcardFrom(text, parts, i, pos) == Wildcard(text, pattern)
    {
      var part := parts[i];
      if part == [] {
        continue;
      }
      if i == 0 {
        if !StartsWith(text[pos..], part) {
          return false;
        }
        pos := pos + |part|;
      } else if i == |parts| - 1 {
        if !EndsWith(text[pos..], part) {
          return false;
        }
      } else {
        var idx := FindFrom(text[pos..], part, 0);
        if idx.None? {
          return false;
        }
        pos := pos + idx.value + |part|;
      }
    }
    return true;
  }

  // ---------------------------------------------------------------------
  // What the pattern pieces are
  // ---------------------------------------------------------------------

  /** A pattern without `*` is a single part. */
  lemma PartsNoStar(pattern: Bytes)
    requires STAR !in pattern
    ensures Parts(pattern) == [pattern]
  {
    NoStarNowhere(pattern);
  }

  /** A `*` occurs nowhere in a pattern without one. */
  lemma NoStarNowhere(s: Bytes)
    requires STAR !in s
    ensures forall k: nat :: !OccursAt(s, [STAR], k)
  {
    forall k: nat
      ensures !OccursAt(s, [STAR], k)
    {
      if k + 1 <= |s| {
        assert s[k..k + 1] == [s[k]];
      }
    }
  }

  /** A pattern `p*` with no other `*` is the parts `p` and the empty part. */
  lemma PartsTrailingStar(p: Bytes)
    requires STAR !in p
    ensures Parts(p + [STAR]) == [p, []]
  {
    var s := p + [STAR];
    assert OccursAt(s, [STAR], |p|);
    NoStarNowhere(p);
    forall j: nat | j < |p|
      ensures !OccursAt(s, [STAR], j)
    {
      assert s[j..j + 1] == p[j..j + 1];
      assert !OccursAt(p, [STAR], j);
    }
    var k := FindFrom(s, [STAR], 0).value;
    assert s[..k] == p && s[k + 1..] == [];
    assert Split(s, [STAR]) == [s[..k]] + Split(s[k + 1..], [STAR]);
    assert FindFrom([], [STAR], 0) == None;
    assert Split([], [STAR]) == [[]];
  }

  /** A pattern of stars only splits into empty parts. */
  lemma {:induction false} PartsAllStars(pattern: Bytes)
    requires forall k :: 0 <= k < |pattern| ==> pattern[k] == STAR
    ensures forall part :: part in Parts(pattern) ==> part == []
    decreases |pattern|
  {
    if pattern != [] {
      assert pattern[0..1] == [STAR];
      assert FindFrom(pattern, [STAR], 0) == Some(0);
      assert Parts(pattern) == [[]] + Parts(pattern[1..]);
      PartsAllStars(pattern[1..]);
    } else {
      assert FindFrom(pattern, [STAR], 0) == None;
    }
  }

  lemma {:induction false} EmptyPartsMatch(text: Bytes, parts: seq<Bytes>, i: nat, pos: nat)
    requires i <= |parts| && pos <= |text|
    requires forall part :: part in parts ==> part == []
    ensures WildcardFrom(text, parts, i, pos)
    decreases |parts| - i
  {
    if i < |parts| {
      assert parts[i] in parts;
      EmptyPartsMatch(text, parts, i + 1, pos);
    }
  }

  /** A pattern made of `*` only matches every text. */
  lemma StarsMatchEverything(text: Bytes, pattern: Bytes)
    requires forall k :: 0 <= k < |pattern| ==> pattern[k] == STAR
    ensures Wildcard(text, pattern)
  {
    PartsAllStars(pattern);
    EmptyPartsMatch(text, Parts(pattern), 0, 0);
  }

  /** A pattern without `*` matches exactly the texts that start with it. */
  lemma NoStarIsPrefix(text: Bytes, pattern: Bytes)
    requires STAR !in pattern
    ensures Wildcard(text, pattern) <==> StartsWith(text, pattern)
  {
    PartsNoStar(pattern);
    assert text[0..] == text;
    if pattern != [] && StartsWith(text, pattern) {
      assert WildcardFrom(text, [pattern], 1, |pattern|);
    }
    if pattern == [] {
      assert WildcardFrom(text, [pattern], 1, 0);
    }
  }

  // ---------------------------------------------------------------------
  // The glob reading of a pattern with at least one `*`
  // ---------------------------------------------------------------------

  /** Parts `i` and later can be placed in the text from `pos` on: every middle
      part at some occurrence after the previous one, and the last part at the end
      of the text, after everything placed before it. */
  ghost predicate InOrder(text: Bytes, parts: seq<Bytes>, i: nat, pos: nat)
    requires 1 <= i < |parts|
    decreases |parts| - i
  {
    if i == |parts| - 1 then pos + |parts[i]| <= |text| && EndsWith(text, parts[i])
    else exists k :: pos <= k && OccursAt(text, parts[i], k) && InOrder(text, parts, i + 1, k + |parts[i]|)
  }

  /** The glob meaning of a pattern with at least one `*`: the text starts with the
      first part, ends with the last, and holds the middle parts in order between
      them, without overlaps. */
  ghost predicate Glob(text: Bytes, parts: seq<Bytes>)
    requires |parts| >= 2
  {
    StartsWith(text, parts[0]) && InOrder(text, parts, 1, |parts[0]|)
  }

  /** Placing from further left is never harder. */
  lemma InOrderMonotone(text: Bytes, parts: seq<Bytes>, i: nat, p: nat, q: nat)
    requires 1 <= i < |parts| && p <= q && InOrder(text, parts, i, q)
    ensures InOrder(text, parts, i, p)
  {
    if i < |parts| - 1 {
      var k :| q <= k && OccursAt(text, parts[i], k) && InOrder(text, parts, i + 1, k + |parts[i]|);
      assert p <= k;
    }
  }

  /** From part 1 on, the greedy loop succeeds exactly when the parts can be
      placed: taking the first occurrence of each middle part leaves the most room
      for the rest. */
  lemma {:induction false} GreedyIsInOrder(text: Bytes, parts: seq<Bytes>, i: nat, pos: nat)
    requires 1 <= i < |parts| && pos <= |text|
    ensures WildcardFrom(text, parts, i, pos) <==> InOrder(text, parts, i, pos)
    decreases |parts| - i
  {
    var part := parts[i];
    if i == |parts| - 1 {
      GreedyLast(text, parts, pos);
    } else if part == [] {
      GreedyIsInOrder(text, parts, i + 1, pos);
      GreedySkip(text, parts, i, pos);
    } else {
      match FindFrom(text[pos..], part, 0)
      case None =>
        MissingInRest(text, part, pos);
        GreedyMissing(text, parts, i, pos);
      case Some(idx) =>
        GreedyIsInOrder(text, parts, i + 1, pos + idx + |part|);
        GreedyFound(text, parts, i, pos, idx);
    }
  }

  /** The last part: a suffix of the rest of the text. */
  lemma GreedyLast(text: Bytes, parts: seq<Bytes>, pos: nat)
    requires 2 <= |parts| && pos <= |text|
    ensures WildcardFrom(text, parts, |parts| - 1, pos) <==> InOrder(text, parts, |parts| - 1, pos)
  {
    var part := parts[|parts| - 1];
    var rest := text[pos..];
    if part != [] && |part| <= |rest| {
      assert rest[|rest| - |part|..] == text[|text| - |part|..];
    }
    if part == [] {
      assert WildcardFrom(text, parts, |parts|, pos);
    }
  }

  /** An empty middle part: skipped, and placed where the text already is. */
  lemma GreedySkip(text: Bytes, parts: seq<Bytes>, i: nat, pos: nat)
    requires 1 <= i < |parts| - 1 && pos <= |text| && parts[i] == []
    requires WildcardFrom(text, parts, i + 1, pos) <==> InOrder(text, parts, i + 1, pos)
    ensures WildcardFrom(text, parts, i, pos) <==> InOrder(text, parts, i, pos)
  {
    if InOrder(text, parts, i, pos) {
      var k :| pos <= k && OccursAt(text, parts[i], k) && InOrder(text, parts, i + 1, k);
      InOrderMonotone(text, parts, i + 1, pos, k);
    }
    if InOrder(text, parts, i + 1, pos) {
      assert OccursAt(text, parts[i], pos);
    }
  }

  /** An occurrence in the rest of the text is an occurrence in the text, shifted. */
  lemma OccursInRest(text: Bytes, part: Bytes, pos: nat, j: nat)
    requires pos <= |text|
    ensures OccursAt(text[pos..], part, j) <==> OccursAt(text, part, pos + j)
  {
    if pos + j + |part| <= |text| {
      assert text[pos..][j..j + |part|] == text[pos + j..pos + j + |part|];
    }
  }

  /** A middle part with no occurrence in the rest of the text cannot be placed. */
  lemma GreedyMissing(text: Bytes, parts: seq<Bytes>, i: nat, pos: nat)
    requires 1 <= i < |parts| - 1 && pos <= |text|
    requires forall k: nat :: pos <= k ==> !OccursAt(text, parts[i], k)
    ensures !InOrder(text, parts, i, pos)
  {
  }

  /** No occurrence found in the rest of the text means none at or after `pos`. */
  lemma MissingInRest(text: Bytes, part: Bytes, pos: nat)
    requires pos <= |text| && FindFrom(text[pos..], part, 0).None?
    ensures forall k: nat :: pos <= k ==> !OccursAt(text, part, k)
  {
    forall k: nat | pos <= k
      ensures !OccursAt(text, part, k)
    {
      OccursInRest(text, part, pos, k - pos);
    }
  }

  /** A middle part found first at `idx` in the rest of the text: the greedy
      position after it is the leftmost any placement can use. */
  lemma GreedyFound(text: Bytes, parts: seq<Bytes>, i: nat, pos: nat, idx: nat)
    requires 1 <= i < |parts| - 1 && pos <= |text| && parts[i] != []
    requires FindFrom(text[pos..], parts[i], 0) == Some(idx)
    requires WildcardFrom(text, parts, i + 1, pos + idx + |parts[i]|) <==>
             InOrder(text, parts, i + 1, pos + idx + |parts[i]|)
    ensures WildcardFrom(text, parts, i, pos) <==> InOrder(text, parts, i, pos)
  {
    var part := parts[i];
    OccursInRest(text, part, pos, idx);
    forall k | pos <= k < pos + idx
      ensures !OccursAt(text, part, k)
    {
      OccursInRest(text, part, pos, k - pos);
    }
    FoundFirst(text, parts, i, pos, idx);
  }

  /** The parts from `i` on can be placed from `pos` exactly when the rest can be
      placed after the first occurrence of part `i`. */
  lemma FoundFirst(text: Bytes, parts: seq<Bytes>, i: nat, pos: nat, idx: nat)
    requires 1 <= i < |parts| - 1 && pos + idx + |parts[i]| <= |text|
    requires OccursAt(text, parts[i], pos + idx)
    requires forall k :: pos <= k < pos + idx ==> !OccursAt(text, parts[i], k)
    ensures InOrder(text, parts, i, pos) <==> InOrder(text, parts, i + 1, pos + idx + |parts[i]|)
  {
    var part := parts[i];
    if InOrder(text, parts, i, pos) {
      var k :| pos <= k && OccursAt(text, part, k) && InOrder(text, parts, i + 1, k + |part|);
      InOrderMonotone(text, parts, i + 1, pos + idx + |part|, k + |part|);
    }
  }

  /** With at least one `*`, `matches_wildcard` is glob matching: the first part a
      prefix, the last part a suffix, the middle parts in order in between. */
  lemma WildcardIsGlob(text: Bytes, pattern: Bytes)
    requires |Parts(pattern)| >= 2
    ensures Wildcard(text, pattern) <==> Glob(text, Parts(pattern))
  {
    var parts := Parts(pattern);
    assert text[0..] == text;
    if parts[0] == [] {
      GreedyIsInOrder(text, parts, 1, 0);
    } else if StartsWith(text, parts[0]) {
      GreedyIsInOrder(text, parts, 1, |parts[0]|);
    }
  }

  // ---------------------------------------------------------------------
  // The term set
  // ---------------------------------------------------------------------

  /** Byte-wise lexicographic order, the order of the FST's keys. */
  predicate LexLess(x: Bytes, y: Bytes)
  {
    if y == [] then false
    else if x == [] then true
    else if x[0] != y[0] then x[0] < y[0]
    else LexLess(x[1..], y[1..])
  }

  lemma {:induction false} LexLessTransitive(x: Bytes, y: Bytes, z: Bytes)
    requires LexLess(x, y) && LexLess(y, z)
    ensures LexLess(x, z)
  {
    if x != [] && x[0] == y[0] && y[0] == z[0] {
      LexLessTransitive(x[1..], y[1..], z[1..]);
    }
  }

  /** A term that starts with `p` is not below `p`. */
  lemma {:induction false} PrefixNotBelow(t: Bytes, p: Bytes)
    requires StartsWith(t, p)
    ensures !LexLess(t, p)
  {
    if p != [] {
      assert t[1..][..|p| - 1] == t[..|p|][1..];
      PrefixNotBelow(t[1..], p[1..]);
    }
  }

  /** The terms starting with `p` form a block: a term between `p` and a term that
      starts with `p` also starts with `p`. */
  lemma {:induction false} PrefixBlock(t: Bytes, u: Bytes, p: Bytes)
    requires StartsWith(u, p) && !LexLess(t, p) && LexLess(t, u)
    ensures StartsWith(t, p)
  {
    if p != [] {
      assert u[0] == u[..|p|][0] == p[0];
      assert u[1..][..|p| - 1] == u[..|p|][1..];
      PrefixBlock(t[1..], u[1..], p[1..]);
      assert t[..|p|] == [t[0]] + t[1..][..|p| - 1];
    }
  }

  /** The keys of the FST, strictly ascending. */
  predicate Sorted(terms: seq<Bytes>)
  {
    forall i, j :: 0 <= i < j < |terms| ==> LexLess(terms[i], terms[j])
  }

  /** `PrefixIndex`: the FST's keys and the minimum prefix length. The term
      frequencies are not consulted by the searches. */
  datatype PrefixIndex = PrefixIndex(terms: seq<Bytes>, minPrefixLen: nat)

  /** `PrefixIndex::new`: no terms yet. */
  function NewIndex(minPrefixLen: nat): (idx: PrefixIndex)
    ensures idx.terms == [] && idx.minPrefixLen == minPrefixLen && Sorted(idx.terms)
  {
    PrefixIndex([], minPrefixLen)
  }

  /** The terms that satisfy `keep`, in order. */
  function Filter(terms: seq<Bytes>, keep: Bytes -> bool): (r: seq<Bytes>)
    ensures forall t :: t in r <==> t in terms && keep(t)
  {
    if terms == [] then []
    else (if keep(terms[0]) then [terms[0]] else []) + Filter(terms[1..], keep)
  }

  lemma {:induction false} FilterConcat(a: seq<Bytes>, b: seq<Bytes>, keep: Bytes -> bool)
    ensures Filter(a + b, keep) == Filter(a, keep) + Filter(b, keep)
  {
    if a != [] {
      assert (a + b)[1..] == a[1..] + b;
      FilterConcat(a[1..], b, keep);
    } else {
      assert a + b == b;
    }
  }

  lemma {:induction false} FilterAll(terms: seq<Bytes>, keep: Bytes -> bool)
    requires forall k :: 0 <= k < |terms| ==> keep(terms[k])
    ensures Filter(terms, keep) == terms
  {
    if terms != [] {
      FilterAll(terms[1..], keep);
    }
  }

  lemma {:induction false} FilterNone(terms: seq<Bytes>, keep: Bytes -> bool)
    requires forall k :: 0 <= k < |terms| ==> !keep(terms[k])
    ensures Filter(terms, keep) == []
  {
    if terms != [] {
      FilterNone(terms[1..], keep);
    }
  }

  /** The test `search_prefix` applies to each key. */
  function HasPrefix(p: Bytes): Bytes -> bool
  {
    t => StartsWith(t, p)
  }

  /** The terms that start with `p`, in order. */
  function WithPrefix(terms: seq<Bytes>, p: Bytes): seq<Bytes>
  {
    Filter(terms, HasPrefix(p))
  }

  /** `fst.range().ge(p)`: where the stream of keys not below `p` begins. */
  function FirstAtLeast(terms: seq<Bytes>, p: Bytes): (k: nat)
    ensures k <= |terms|
    ensures forall j :: 0 <= j < k ==> LexLess(terms[j], p)
    ensures k < |terms| ==> !LexLess(terms[k], p)
  {
    if terms == [] || !LexLess(terms[0], p) then 0
    else 1 + FirstAtLeast(terms[1..], p)
  }

  /** What `search_prefix` returns: nothing for a prefix shorter than the minimum,
      otherwise every term with that prefix, in order. */
  function PrefixResults(idx: PrefixIndex, prefix: Bytes): seq<Bytes>
  {
    if |prefix| < idx.minPrefixLen then [] else WithPrefix(idx.terms, prefix)
  }

  /** No key below `p` starts with `p`. */
  lemma BelowHasNoPrefix(terms: seq<Bytes>, p: Bytes, k: nat)
    requires k == FirstAtLeast(terms, p)
    ensures WithPrefix(terms[..k], p) == []
  {
    forall j | 0 <= j < k
      ensures !StartsWith(terms[..k][j], p)
    {
      if StartsWith(terms[j], p) {
        PrefixNotBelow(terms[j], p);
      }
    }
    FilterNone(terms[..k], HasPrefix(p));
  }

  /** Once a key at or above `p` lacks the prefix, no later key has it. */
  lemma AfterRunHasNoPrefix(terms: seq<Bytes>, p: Bytes, k: nat, i: nat)
    requires Sorted(terms) && k == FirstAtLeast(terms, p) && k <= i < |terms|
    requires !StartsWith(terms[i], p)
    ensures WithPrefix(terms[i..], p) == []
  {
    assert !LexLess(terms[i], p) by {
      if i > k && LexLess(terms[i], p) {
        LexLessTransitive(terms[k], terms[i], p);
      }
    }
    forall j | 0 <= j < |terms| - i
      ensures !StartsWith(terms[i..][j], p)
    {
      if j > 0 && StartsWith(terms[i + j], p) {
        PrefixBlock(terms[i], terms[i + j], p);
      }
    }
    FilterNone(terms[i..], HasPrefix(p));
  }

  /** The run of keys from where `range().ge(p)` starts up to a point after which
      no key has the prefix holds exactly the keys with the prefix. */
  lemma PrefixRun(terms: seq<Bytes>, p: Bytes, k: nat, i: nat)
    requires k == FirstAtLeast(terms, p) && k <= i <= |terms|
    requires forall j :: k <= j < i ==> StartsWith(terms[j], p)
    requires WithPrefix(terms[i..], p) == []
    ensures terms[k..i] == WithPrefix(terms, p)
  {
    var below, run, after := terms[..k], terms[k..i], terms[i..];
    assert terms == below + run + after;
    FilterThree(below, run, after, HasPrefix(p));
    BelowHasNoPrefix(terms, p, k);
    forall j | 0 <= j < |run|
      ensures HasPrefix(p)(run[j])
    {
      assert run[j] == terms[k + j];
    }
    FilterAll(run, HasPrefix(p));
    assert WithPrefix(terms, p) == [] + run + [];
  }

  lemma FilterThree(a: seq<Bytes>, b: seq<Bytes>, c: seq<Bytes>, keep: Bytes -> bool)
    ensures Filter(a + b + c, keep) == Filter(a, keep) + Filter(b, keep) + Filter(c, keep)
  {
    FilterConcat(a + b, c, keep);
    FilterConcat(a, b, keep);
  }

  /** `PrefixIndex::search_prefix`: stream the keys from the first one not below the
      prefix, and stop at the first that does not start with it. */
  method SearchPrefix(idx: PrefixIndex, prefix: Bytes) returns (results: seq<Bytes>)
    requires Sorted(idx.terms)
    ensures results == PrefixResults(idx, prefix)
  {
    if |prefix| < idx.minPrefixLen {
      return [];
    }
    var terms := idx.terms;
    var start := FirstAtLeast(terms, prefix);
    results := [];
    var i := start;
    while i < |terms|
      invariant start <= i <= |terms|
      invariant results == terms[start..i]
      invariant forall j :: start <= j < i ==> StartsWith(terms[j], prefix)
    {
      if !StartsWith(terms[i], prefix) {
        break;
      }
      results := results + [terms[i]];
      i := i + 1;
    }
    if i < |terms| {
      AfterRunHasNoPrefix(terms, prefix, start, i);
    } else {
      assert terms[i..] == [];
    }
    PrefixRun(terms, prefix, start, i);
  }

  /** Every prefix result starts with the prefix, and every key with the prefix is
      a result unless the prefix is shorter than the minimum. */
  lemma PrefixResultsMembers(idx: PrefixIndex, prefix: Bytes, t: Bytes)
    ensures t in PrefixResults(idx, prefix) <==>
              |prefix| >= idx.minPrefixLen && t in idx.terms && StartsWith(t, prefix)
  {
  }

  /** What `search_wildcard` returns: `p*` with no other star goes to the prefix
      search; every other pattern keeps the keys it matches, in order. */
  function WildcardResults(idx: PrefixIndex, pattern: Bytes): seq<Bytes>
  {
    var parts := Parts(pattern);
    if |parts| == 2 && parts[1] == [] then PrefixResults(idx, parts[0])
    else Filter(idx.terms, t => Wildcard(t, pattern))
  }

  /** `PrefixIndex::search_wildcard`. `split` always yields at least one part, so
      its empty-parts check never fires. */
  method SearchWildcard(idx: PrefixIndex, pattern: Bytes) returns (results: seq<Bytes>)
    requires Sorted(idx.terms)
    ensures results == WildcardResults(idx, pattern)
  {
    var parts := Split(pattern, [STAR]);
    if |parts| == 2 && parts[1] == [] {
      results := SearchPrefix(idx, parts[0]);
      return;
    }
    var terms := idx.terms;
    results := [];
    for i := 0 to |terms|
      invariant results == Filter(terms[..i], t => Wildcard(t, pattern))
    {
      var m := MatchesWildcard(terms[i], pattern);
      assert terms[..i + 1] == terms[..i] + [terms[i]];
      FilterConcat(terms[..i], [terms[i]], t => Wildcard(t, pattern));
      if m {
        results := results + [terms[i]];
      }
    }
    assert terms[..|terms|] == terms;
  }

  /** `search_wildcard("p*")` is `search_prefix("p")`. */
  lemma TrailingStarIsPrefix(idx: PrefixIndex, p: Bytes)
    requires STAR !in p
    ensures WildcardResults(idx, p + [STAR]) == PrefixResults(idx, p)
  {
    PartsTrailingStar(p);
  }

  /** The shortcut agrees with the general scan, which would keep the same keys,
      except that it answers nothing for a prefix below the minimum length. */
  lemma TrailingStarMatchesPrefix(text: Bytes, p: Bytes)
    requires STAR !in p
    ensures Wildcard(text, p + [STAR]) <==> StartsWith(text, p)
  {
    var parts := [p, []];
    PartsTrailingStar(p);
    assert text[0..] == text;
    assert WildcardFrom(text, parts, 2, 0);
    if p != [] && StartsWith(text, p) {
      assert WildcardFrom(text, parts, 2, |p|);
      assert WildcardFrom(text, parts, 1, |p|);
    }
    if p == [] {
      assert WildcardFrom(text, parts, 1, 0);
    }
  }
}
