/** `DocumentMatcher` (src/query/matcher.rs): whether one document matches a query
    tree. The position checks behind phrase matching are loops; the rest is case
    analysis and recursion over the tree. */
module Matcher {
  import opened Base
  import opened Types
  import opened QueryAst
  import opened Text
  import opened Posting

  /** What the matcher consults besides the document: each indexed term's postings,
      and the library routines it calls (lower-casing, the regex engine, which
      answers `None` for a pattern it cannot compile, and `levenshtein_distance`). */
  datatype Env = Env(index: map<string, seq<Posting>>, lower: string -> string,
                     regex: (string, string) -> Option<bool>, levenshtein: (string, string) -> nat)

  /** The field name that makes a term query search every text field. */
  const ALL_FIELDS: string := "_all"

  // ---------------------------------------------------------------------
  // Phrase positions
  // ---------------------------------------------------------------------

  /** Position arithmetic is on `u32` and, as in a release build, wraps. */
  function Succ(p: U32): U32
  {
    WrapAdd(p, 1)
  }

  /** Adding to the low 32 bits of `a` gives the low 32 bits of the whole sum. */
  lemma TruncShift(a: nat, b: nat)
    ensures TruncU32(TruncU32(a) + b) == TruncU32(a + b)
  {
    var q, r := a / U32_MOD, TruncU32(a);
    assert a + b == q * U32_MOD + (r + b);
    ModMultiple(q, r + b);
  }

  lemma {:induction false} ModMultiple(q: nat, t: nat)
    ensures (q * U32_MOD + t) % U32_MOD == t % U32_MOD
    decreases q
  {
    if q > 0 {
      ModMultiple(q - 1, t);
      assert q * U32_MOD + t == ((q - 1) * U32_MOD + t) + U32_MOD;
    }
  }

  /** The position `d` wrapping increments after `p`. */
  function Offset(p: U32, d: nat): U32
  {
    if d == 0 then p else Succ(Offset(p, d - 1))
  }

  /** `d` wrapping increments add `d` modulo 2^32. */
  lemma {:induction false} OffsetIsSum(p: U32, d: nat)
    ensures Offset(p, d) == TruncU32(p + d)
  {
    if d > 0 {
      OffsetIsSum(p, d - 1);
      TruncShift(p + d - 1, 1);
    }
  }

  /** Stepping once and then `d` times is stepping `d + 1` times. */
  lemma {:induction false} OffsetShift(p: U32, d: nat)
    ensures Offset(Succ(p), d) == Offset(p, d + 1)
  {
    if d > 0 {
      OffsetShift(p, d - 1);
    }
  }

  /** Starting at `p` in list 0, list `k` holds the position `k` steps after `p`, for
      every later `k`. */
  ghost predicate ChainsFrom(lists: seq<seq<U32>>, p: U32)
  {
    forall k :: 1 <= k < |lists| ==> Offset(p, k) in lists[k]
  }

  /** What `check_adjacent_positions` decides: some position of the first term is
      followed, one step at a time, by a position of every later term. */
  ghost predicate Adjacent(lists: seq<seq<U32>>)
  {
    |lists| > 0 && exists i :: 0 <= i < |lists[0]| && ChainsFrom(lists, lists[0][i])
  }

  /** `check_adjacent_positions`: `current_pos += 1` wraps at `u32::MAX`. */
  method CheckAdjacent(lists: seq<seq<U32>>) returns (r: bool)
    ensures r == Adjacent(lists)
  {
    if |lists| == 0 {
      return false;
    }
    var s := 0;
    while s < |lists[0]|
      invariant s <= |lists[0]|
      invariant forall i :: 0 <= i < s ==> !ChainsFrom(lists, lists[0][i])
    {
      var start := lists[0][s];
      var current := start;
      var found := true;
      var k := 1;
      while k < |lists|
        invariant 1 <= k <= |lists|
        invariant current == Offset(start, k - 1)
        invariant forall m :: 1 <= m < k ==> Offset(start, m) in lists[m]
      {
        current := Succ(current);
        if current !in lists[k] {
          found := false;
          break;
        }
        k := k + 1;
      }
      if found {
        return true;
      }
      s := s + 1;
    }
    return false;
  }

  /** `iter().find` over a position list: the index of the first position in
      `[lo, hi]`. */
  function FirstWithin(list: seq<U32>, lo: int, hi: int): (r: Option<nat>)
    ensures r.Some? ==> r.value < |list| && lo <= list[r.value] <= hi &&
                        forall j :: 0 <= j < r.value ==> !(lo <= list[j] <= hi)
    ensures r.None? ==> forall j :: 0 <= j < |list| ==> !(lo <= list[j] <= hi)
  {
    if list == [] then None
    else if lo <= list[0] <= hi then Some(0)
    else
      match FirstWithin(list[1..], lo, hi)
      case None => None
      case Some(j) => Some(j + 1)
  }

  /** The window `[current_pos + 1, current_pos + slop + 1]` in which the next term is
      looked for, each `+` wrapping on `u32`. */
  function Window(cur: U32, slop: U32): (U32, U32)
  {
    (Succ(cur), Succ(WrapAdd(cur, slop)))
  }

  /** From position `cur` in list `k - 1`, each later list in turn supplies the first
      of its positions in the window after the previous one. */
  function ChainFrom(lists: seq<seq<U32>>, k: nat, cur: U32, slop: U32): bool
    decreases |lists| - k
  {
    if k >= |lists| then true
    else
      match FirstWithin(lists[k], Window(cur, slop).0, Window(cur, slop).1)
      case None => false
      case Some(j) => ChainFrom(lists, k + 1, lists[k][j], slop)
  }

  /** What `check_proximity_positions` decides. */
  ghost predicate Proximity(lists: seq<seq<U32>>, slop: U32)
  {
    |lists| > 0 && exists i :: 0 <= i < |lists[0]| && ChainFrom(lists, 1, lists[0][i], slop)
  }

  /** `check_proximity_positions`. */
  method CheckProximity(lists: seq<seq<U32>>, slop: U32) returns (r: bool)
    ensures r == Proximity(lists, slop)
  {
    if |lists| == 0 {
      return false;
    }
    var s := 0;
    while s < |lists[0]|
      invariant s <= |lists[0]|
      invariant forall i :: 0 <= i < s ==> !ChainFrom(lists, 1, lists[0][i], slop)
    {
      var current := lists[0][s];
      var found := true;
      var k := 1;
      while k < |lists|
        invariant 1 <= k <= |lists|
        invariant ChainFrom(lists, k, current, slop) == ChainFrom(lists, 1, lists[0][s], slop)
      {
        var minPos := Succ(current);
        var maxPos := Succ(WrapAdd(current, slop));
        var next := FirstWithin(lists[k], minPos, maxPos);
        if next.Some? {
          current := lists[k][next.value];
        } else {
          found := false;
          break;
        }
        k := k + 1;
      }
      if found {
        return true;
      }
      s := s + 1;
    }
    return false;
  }

  /** With no slop the window is the single next position, so each step of the
      chain is the adjacency test. */
  lemma {:induction false} ChainZero(lists: seq<seq<U32>>, k: nat, cur: U32)
    requires k >= 1
    ensures ChainFrom(lists, k, cur, 0) <==> forall m :: k <= m < |lists| ==> Offset(cur, m - k + 1) in lists[m]
    decreases |lists| - k
  {
    if k < |lists| {
      var next := Offset(cur, 1);
      ChainZeroStep(lists, k, cur);
      ChainZero(lists, k + 1, next);
      forall d: nat | d < |lists|
        ensures Offset(next, d) == Offset(cur, d + 1)
      {
        OffsetShift(cur, d);
      }
    }
  }

  /** One step of a chain without slop: the next list must hold the next position. */
  lemma ChainZeroStep(lists: seq<seq<U32>>, k: nat, cur: U32)
    requires k < |lists|
    ensures ChainFrom(lists, k, cur, 0) <==> Offset(cur, 1) in lists[k] && ChainFrom(lists, k + 1, Offset(cur, 1), 0)
  {
    var next := Offset(cur, 1);
    assert WrapAdd(cur, 0) == cur && Offset(cur, 0) == cur;
    assert Window(cur, 0) == (next, next);
    var r := FirstWithin(lists[k], next, next);
    if next in lists[k] {
      var j :| 0 <= j < |lists[k]| && lists[k][j] == next;
      assert r.Some?;
    }
  }

  /** `check_proximity_positions` with slop 0 agrees with `check_adjacent_positions`. */
  lemma ProximityZeroIsAdjacent(lists: seq<seq<U32>>)
    ensures Proximity(lists, 0) == Adjacent(lists)
  {
    if |lists| > 0 {
      forall i | 0 <= i < |lists[0]|
        ensures ChainFrom(lists, 1, lists[0][i], 0) == ChainsFrom(lists, lists[0][i])
      {
        ChainZero(lists, 1, lists[0][i]);
      }
    }
  }

  /** Positions wrap: the position after `u32::MAX` is 0, so a term at the last
      position followed by one at position 0 is adjacent. */
  lemma AdjacentAcrossWrap()
    ensures Adjacent([[U32_MOD - 1], [0]])
  {
    var lists: seq<seq<U32>> := [[U32_MOD - 1], [0]];
    assert Offset(lists[0][0], 1) == 0;
    assert ChainsFrom(lists, lists[0][0]);
  }

  /** With slop `u32::MAX` the window's upper end wraps below its lower end, so no
      position qualifies: a term at 0 is not followed within the window by one at 5. */
  lemma MaxSlopWindowEmpty()
    ensures !Proximity([[0], [5]], U32_MOD - 1)
  {
    var lists: seq<seq<U32>> := [[0], [5]];
    assert Window(0, U32_MOD - 1) == (1, 0);
    assert FirstWithin(lists[1], 1, 0) == None;
    assert !ChainFrom(lists, 1, lists[0][0], U32_MOD - 1);
  }

  // ---------------------------------------------------------------------
  // Leaf queries
  // ---------------------------------------------------------------------

  /** The first posting of `docId` in a term's postings. */
  function PostingFor(postings: seq<Posting>, docId: DocId): (r: Option<Posting>)
    ensures r.Some? ==> r.value in postings && r.value.docId == docId
    ensures r.None? <==> forall p :: p in postings ==> p.docId != docId
  {
    if postings == [] then None
    else if postings[0].docId == docId then Some(postings[0])
    else PostingFor(postings[1..], docId)
  }

  /** Whether a term is indexed and has a posting for the document. */
  predicate Occurs(index: map<string, seq<Posting>>, term: string, docId: DocId)
  {
    term in index && PostingFor(index[term], docId).Some?
  }

  /** The loop of `matches_phrase` that collects, term by term, the document's
      positions of each phrase term; `None` when some term does not occur. */
  function PhrasePositions(index: map<string, seq<Posting>>, docId: DocId, phrase: seq<string>)
    : (r: Option<seq<seq<U32>>>)
    ensures r.Some? <==> forall t :: t in phrase ==> Occurs(index, t, docId)
    ensures r.Some? ==> |r.value| == |phrase|
  {
    if phrase == [] then Some([])
    else if !Occurs(index, phrase[0], docId) then None
    else
      var head := PostingFor(index[phrase[0]], docId).value.positions;
      assert forall t :: t in phrase <==> t == phrase[0] || t in phrase[1..];
      match PhrasePositions(index, docId, phrase[1..])
      case None => None
      case Some(rest) => Some([head] + rest)
  }

  /** `matches_phrase`: adjacency without slop, proximity with it. */
  ghost function MatchesPhrase(env: Env, doc: Document, phrase: seq<string>, slop: U32): (r: bool)
    ensures r ==> phrase != [] && forall t :: t in phrase ==> Occurs(env.index, t, doc.id)
  {
    match PhrasePositions(env.index, doc.id, phrase)
    case None => false
    case Some(lists) => if slop == 0 then Adjacent(lists) else Proximity(lists, slop)
  }

  /** The text of a text field, if the document has that field and it is text. */
  function FieldText(doc: Document, field: string): Option<string>
  {
    if field in doc.fields && doc.fields[field].Text? then Some(doc.fields[field].text) else None
  }

  /** `matches_term`: `_all` searches every text field, any other name only its own
      field; both compare lower-cased. */
  function MatchesTerm(env: Env, doc: Document, field: string, value: string): (r: bool)
    ensures r <==> exists f :: f in doc.fields && (field == ALL_FIELDS || f == field) &&
                     doc.fields[f].Text? && Contains(env.lower(doc.fields[f].text), env.lower(value))
  {
    if field == ALL_FIELDS then
      exists f :: f in doc.fields && doc.fields[f].Text? && Contains(env.lower(doc.fields[f].text), env.lower(value))
    else
      field in doc.fields && doc.fields[field].Text? && Contains(env.lower(doc.fields[field].text), env.lower(value))
  }

  /** `number_in_range`: the bounds are tested in the order gt, gte, lt, lte; a bound
      that is not a number is ignored. */
  function NumberInRange(num: real, range: RangeQuery): (r: bool)
    ensures r <==> (range.gt.Some? && range.gt.value.Number? ==> num > range.gt.value.number) &&
                   (range.gte.Some? && range.gte.value.Number? ==> num >= range.gte.value.number) &&
                   (range.lt.Some? && range.lt.value.Number? ==> num < range.lt.value.number) &&
                   (range.lte.Some? && range.lte.value.Number? ==> num <= range.lte.value.number)
  {
    if range.gt.Some? && range.gt.value.Number? && num <= range.gt.value.number then false
    else if range.gte.Some? && range.gte.value.Number? && num < range.gte.value.number then false
    else if range.lt.Some? && range.lt.value.Number? && num >= range.lt.value.number then false
    else if range.lte.Some? && range.lte.value.Number? && num > range.lte.value.number then false
    else true
  }

  /** `matches_range`: numbers are tested against the bounds, any date matches, other
      values and a missing field do not. */
  function MatchesRange(doc: Document, range: RangeQuery): (r: bool)
    ensures r ==> range.field in doc.fields
    ensures range.field in doc.fields && doc.fields[range.field].Number? ==>
              r == NumberInRange(doc.fields[range.field].number, range)
    ensures range.field in doc.fields && doc.fields[range.field].Date? ==> r
    ensures range.field in doc.fields && (doc.fields[range.field].Text? || doc.fields[range.field].Boolean?) ==> !r
  {
    if range.field in doc.fields then
      match doc.fields[range.field]
      case Number(num) => NumberInRange(num, range)
      case Date(_) => true
      case _ => false
    else false
  }

  /** `matches_prefix`: some whitespace-separated word of the field starts with the
      prefix. */
  function MatchesPrefix(doc: Document, field: string, prefix: string): (r: bool)
    ensures r ==> FieldText(doc, field).Some?
  {
    match FieldText(doc, field)
    case None => false
    case Some(text) => exists w :: w in SplitWhitespace(text) && StartsWith(w, prefix)
  }

  /** The loop of `matches_prefix` over the words of a text field: it returns as
      soon as a word starts with the prefix. */
  method AnyWordStartsWith(words: seq<string>, prefix: string) returns (found: bool)
    ensures found <==> exists w :: w in words && StartsWith(w, prefix)
  {
    for i := 0 to |words|
      invariant forall j :: 0 <= j < i ==> !StartsWith(words[j], prefix)
    {
      if StartsWith(words[i], prefix) {
        return true;
      }
    }
    return false;
  }

  /** `matches_prefix`: a missing field or one that is not text does not match;
      otherwise the field's words are scanned. */
  method MatchPrefix(doc: Document, field: string, prefix: string) returns (r: bool)
    ensures r == MatchesPrefix(doc, field, prefix)
  {
    if field in doc.fields {
      match doc.fields[field]
      case Text(text) =>
        r := AnyWordStartsWith(SplitWhitespace(text), prefix);
        return;
      case _ =>
        return false;
    }
    return false;
  }

  /** A prefix query matches exactly when the prefix occurs in the text field where
      a word begins; a prefix holding whitespace matches nothing. */
  lemma PrefixAtWordStart(doc: Document, field: string, prefix: string)
    ensures NoWhitespace(prefix) ==>
              (MatchesPrefix(doc, field, prefix) <==>
                 FieldText(doc, field).Some? && WordBeginsWith(FieldText(doc, field).value, prefix))
    ensures !NoWhitespace(prefix) ==> !MatchesPrefix(doc, field, prefix)
  {
    if FieldText(doc, field).Some? {
      var text := FieldText(doc, field).value;
      if NoWhitespace(prefix) {
        WordsStartingWith(text, prefix);
      }
    }
  }

  /** The regex `matches_wildcard` builds: `*` becomes `.*`, `?` becomes `.`. */
  function WildcardRegex(pattern: string): (r: string)
    ensures '*' !in pattern && '?' !in pattern ==> r == pattern
  {
    if pattern == [] then []
    else
      var head := if pattern[0] == '*' then ".*" else if pattern[0] == '?' then "." else [pattern[0]];
      head + WildcardRegex(pattern[1..])
  }

  /** `matches_wildcard`: a pattern the regex engine cannot compile matches nothing. */
  function MatchesWildcard(env: Env, doc: Document, field: string, pattern: string): (r: bool)
    ensures r ==> FieldText(doc, field).Some?
  {
    match FieldText(doc, field)
    case None => false
    case Some(text) => env.regex(WildcardRegex(pattern), text) == Some(true)
  }

  /** A wildcard query matches only a text field; a pattern without `*` or `?` is
      handed to the regex engine unchanged; and a pattern the engine cannot compile
      matches nothing. */
  lemma WildcardMeaning(env: Env, doc: Document, field: string, pattern: string)
    ensures FieldText(doc, field).None? ==> !MatchesWildcard(env, doc, field, pattern)
    ensures FieldText(doc, field).Some? && '*' !in pattern && '?' !in pattern ==>
              (MatchesWildcard(env, doc, field, pattern) <==>
                 env.regex(pattern, FieldText(doc, field).value) == Some(true))
    ensures FieldText(doc, field).Some? && env.regex(WildcardRegex(pattern), FieldText(doc, field).value).None? ==>
              !MatchesWildcard(env, doc, field, pattern)
  {
  }

  /** The error standing for the panic of `max_edits.unwrap()` on `None`. */
  const NO_MAX_EDITS := Error(InvalidState, "max_edits is None")

  /** `matches_fuzzy`: within `max_edits` of a text field; unwrapping an absent
      `max_edits` is reported as an error. */
  function MatchesFuzzy(env: Env, doc: Document, field: string, term: string, maxEdits: Option<U8>)
    : (r: Result<bool>)
    ensures r.Err? <==> FieldText(doc, field).Some? && maxEdits.None?
  {
    match FieldText(doc, field)
    case None => Ok(false)
    case Some(text) =>
      if maxEdits.None? then Err(NO_MAX_EDITS)
      else Ok(env.levenshtein(term, text) <= maxEdits.value as nat)
  }

  // ---------------------------------------------------------------------
  // The query tree
  // ---------------------------------------------------------------------

  /** No fuzzy query in the tree lacks its `max_edits`, so matching cannot fail. */
  predicate Total(q: Query)
    decreases q
  {
    match q
    case Fuzzy(_, _, maxEdits, _) => maxEdits.Some?
    case Bool(b) =>
      (forall c :: c in b.must ==> Total(c)) && (forall c :: c in b.should ==> Total(c)) &&
      (forall c :: c in b.mustNot ==> Total(c)) && (forall c :: c in b.filter ==> Total(c))
    case _ => true
  }

  /** When a document satisfies a query: the meaning `matches` gives each query,
      with a Boolean query's clauses combined as all of `must`, none of `must_not`,
      one of `should` (when there are any) and all of `filter`. */
  ghost predicate Holds(env: Env, doc: Document, q: Query)
    decreases q
  {
    match q
    case MatchAll => true
    case Term(field, value) => MatchesTerm(env, doc, field, value)
    case Phrase(_, phrase, slop) => MatchesPhrase(env, doc, phrase, slop)
    case Bool(b) =>
      (forall c :: c in b.must ==> Holds(env, doc, c)) &&
      (forall c :: c in b.mustNot ==> !Holds(env, doc, c)) &&
      (b.should == [] || exists c :: c in b.should && Holds(env, doc, c)) &&
      (forall c :: c in b.filter ==> Holds(env, doc, c))
    case Range(range) => MatchesRange(doc, range)
    case Prefix(field, prefix) => MatchesPrefix(doc, field, prefix)
    case Wildcard(field, pattern) => MatchesWildcard(env, doc, field, pattern)
    case Fuzzy(field, term, maxEdits, _) =>
      FieldText(doc, field).Some? && maxEdits.Some? &&
      env.levenshtein(term, FieldText(doc, field).value) <= maxEdits.value as nat
  }

  /** `matches`. */
  ghost function Matches(env: Env, doc: Document, q: Query): (r: Result<bool>)
    ensures q == MatchAll ==> r == Ok(true)
    ensures Total(q) ==> r == Ok(Holds(env, doc, q))
    decreases q, 1
  {
    match q
    case MatchAll => Ok(true)
    case Term(field, value) => Ok(MatchesTerm(env, doc, field, value))
    case Phrase(_, phrase, slop) => Ok(MatchesPhrase(env, doc, phrase, slop))
    case Bool(b) => MatchesBool(env, doc, b)
    case Range(range) => Ok(MatchesRange(doc, range))
    case Prefix(field, prefix) => Ok(MatchesPrefix(doc, field, prefix))
    case Wildcard(field, pattern) => Ok(MatchesWildcard(env, doc, field, pattern))
    case Fuzzy(field, term, maxEdits, _) => MatchesFuzzy(env, doc, field, term, maxEdits)
  }

  /** The `must` and `filter` loops: the first clause that fails to match, or fails,
      decides. */
  ghost function AllOf(env: Env, doc: Document, qs: seq<Query>): (r: Result<bool>)
    ensures (forall c :: c in qs ==> Total(c)) ==> r == Ok(forall c :: c in qs ==> Holds(env, doc, c))
    decreases qs
  {
    if qs == [] then Ok(true)
    else
      assert forall c :: c in qs <==> c == qs[0] || c in qs[1..];
      assert qs[0] in qs;
      var m :- Matches(env, doc, qs[0]);
      if !m then Ok(false) else AllOf(env, doc, qs[1..])
  }

  /** The `must_not` and `should` loops: the first clause that matches, or fails,
      decides. */
  ghost function AnyOf(env: Env, doc: Document, qs: seq<Query>): (r: Result<bool>)
    ensures (forall c :: c in qs ==> Total(c)) ==> r == Ok(exists c :: c in qs && Holds(env, doc, c))
    decreases qs
  {
    if qs == [] then Ok(false)
    else
      assert forall c :: c in qs <==> c == qs[0] || c in qs[1..];
      assert qs[0] in qs;
      var m :- Matches(env, doc, qs[0]);
      if m then Ok(true) else AnyOf(env, doc, qs[1..])
  }

  /** `matches_bool`: `must`, then `must_not`, then `should`, then `filter`. */
  ghost function MatchesBool(env: Env, doc: Document, b: BoolQuery): (r: Result<bool>)
    ensures Total(Bool(b)) ==> r == Ok(Holds(env, doc, Bool(b)))
    decreases b
  {
    var must :- AllOf(env, doc, b.must);
    if !must then Ok(false)
    else
      var excluded :- AnyOf(env, doc, b.mustNot);
      if excluded then Ok(false)
      else
        var should :- if b.should == [] then Ok(true) else AnyOf(env, doc, b.should);
        if !should then Ok(false)
        else AllOf(env, doc, b.filter)
  }
}
