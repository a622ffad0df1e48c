/** `InvertedIndex` and `TermDictionary` (src/index/inverted.rs). A term's posting
    list is the sequence of its postings, one per document, in the order the
    documents were added. */
module Inverted {
  import opened Base
  import opened Types
  import opened Posting

  /** `Term`: the bytes of a token's text; the text itself stands for them here. */
  type Term = string

  /** `TermInfo`; `idf` is an `f32` in the engine and a real here. */
  datatype TermInfo = TermInfo(docFreq: U32, totalFreq: U64, idf: real, postingOffset: U64, postingSize: U32)

  /** `TermDictionary`: the statistics of each term, and where they sit in `termInfos`. */
  class TermDictionary {
    var termInfos: seq<TermInfo>
    var termMap: map<Term, nat>
    /** The term owning each slot. */
    ghost var keys: seq<Term>

    /** Each term has its own slot, and every slot belongs to a term. */
    ghost predicate Valid()
      reads this
    {
      |keys| == |termInfos| &&
      (forall t :: t in termMap ==> termMap[t] < |keys| && keys[termMap[t]] == t) &&
      (forall i :: 0 <= i < |keys| ==> keys[i] in termMap && termMap[keys[i]] == i)
    }

    constructor()
      ensures Valid() && termInfos == [] && termMap == map[]
    {
      termInfos := [];
      termMap := map[];
      keys := [];
    }

    /** `get_term_info`. */
    function GetTermInfo(term: Term): (r: Option<TermInfo>)
      reads this
      requires Valid()
      ensures r.Some? <==> term in termMap
      ensures r.Some? ==> r.value == termInfos[termMap[term]]
    {
      if term in termMap then Some(termInfos[termMap[term]]) else None
    }

    /** `len`: the number of distinct terms. */
    function Len(): (r: nat)
      reads this
      requires Valid()
      ensures r == |keys| && forall i, j :: 0 <= i < j < r ==> keys[i] != keys[j]
    {
      |termInfos|
    }

    /** `add_term`: a known term gets its `doc_freq` replaced; a new term gets the next
        slot, with `total_freq` equal to `doc_freq` and the other statistics zero. */
    method AddTerm(term: Term, docFreq: U32)
      modifies this
      requires Valid()
      ensures Valid()
      ensures GetTermInfo(term).Some? && GetTermInfo(term).value.docFreq == docFreq
      ensures term in old(termMap) ==>
                termMap == old(termMap) && |termInfos| == old(|termInfos|) &&
                termInfos == old(termInfos)[termMap[term] := old(termInfos)[termMap[term]].(docFreq := docFreq)]
      ensures term !in old(termMap) ==>
                termMap == old(termMap)[term := old(|termInfos|)] &&
                termInfos == old(termInfos) + [TermInfo(docFreq, docFreq, 0.0, 0, 0)]
      ensures forall u :: u != term ==> GetTermInfo(u) == old(GetTermInfo(u))
    {
      if term in termMap {
        var index := termMap[term];
        termInfos := termInfos[index := termInfos[index].(docFreq := docFreq)];
      } else {
        var index := |termInfos|;
        termMap := termMap[term := index];
        termInfos := termInfos + [TermInfo(docFreq, docFreq, 0.0, 0, 0)];
        keys := keys + [term];
      }
    }
  }

  // ---------------------------------------------------------------------
  // Grouping a document's tokens by term
  // ---------------------------------------------------------------------

  /** The distinct token texts, in order of first occurrence. */
  function FirstOccurrences(tokens: seq<Token>): seq<Term>
  {
    if tokens == [] then []
    else
      var rest := FirstOccurrences(tokens[..|tokens| - 1]);
      var t := tokens[|tokens| - 1].text;
      if t in rest then rest else rest + [t]
  }

  /** No text is listed twice. */
  lemma {:induction false} FirstOccurrencesDistinct(tokens: seq<Token>)
    ensures Distinct(FirstOccurrences(tokens))
    decreases |tokens|
  {
    if tokens != [] {
      var rest := FirstOccurrences(tokens[..|tokens| - 1]);
      FirstOccurrencesDistinct(tokens[..|tokens| - 1]);
      var t := tokens[|tokens| - 1].text;
      if t in rest {
        assert FirstOccurrences(tokens) == rest;
      } else {
        var r := rest + [t];
        assert FirstOccurrences(tokens) == r;
        forall i, j | 0 <= i < j < |r|
          ensures r[i] != r[j]
        {
          if j < |rest| {
            assert r[i] == rest[i] && r[j] == rest[j];
          } else {
            assert r[i] == rest[i] && rest[i] in rest;
          }
        }
      }
    }
  }

  /** The first-occurrence list holds exactly the texts of the tokens. */
  lemma {:induction false} FirstOccurrencesMembers(tokens: seq<Token>, t: Term)
    ensures t in FirstOccurrences(tokens) <==> exists i :: 0 <= i < |tokens| && tokens[i].text == t
    decreases |tokens|
  {
    if tokens != [] {
      var init := tokens[..|tokens| - 1];
      FirstOccurrencesMembers(init, t);
      assert forall i :: 0 <= i < |init| ==> init[i] == tokens[i];
      if t == tokens[|tokens| - 1].text {
        assert tokens[|tokens| - 1].text == t;
      }
    }
  }

  /** Extending the tokens by one adds that token's position to its own term only. */
  lemma PositionsStep(tokens: seq<Token>, i: nat, u: Term)
    requires i < |tokens|
    ensures PositionsOf(tokens[..i + 1], u) ==
            PositionsOf(tokens[..i], u) + (if tokens[i].text == u then [tokens[i].position] else [])
  {
    assert tokens[..i + 1][..i] == tokens[..i];
  }

  /** The positions of the tokens whose text is `term`, in token order. */
  function PositionsOf(tokens: seq<Token>, term: Term): seq<U32>
  {
    if tokens == [] then []
    else
      PositionsOf(tokens[..|tokens| - 1], term) +
      (if tokens[|tokens| - 1].text == term then [tokens[|tokens| - 1].position] else [])
  }

  /** The number of tokens whose text is `term`. */
  function Occurrences(tokens: seq<Token>, term: Term): nat
  {
    if tokens == [] then 0
    else Occurrences(tokens[1..], term) + (if tokens[0].text == term then 1 else 0)
  }

  /** A term's positions are exactly as many as its occurrences, and there are some
      exactly when the term occurs. */
  lemma {:induction false} PositionsCount(tokens: seq<Token>, term: Term)
    ensures |PositionsOf(tokens, term)| == Occurrences(tokens, term)
    ensures |PositionsOf(tokens, term)| > 0 <==> term in FirstOccurrences(tokens)
    decreases |tokens|
  {
    if tokens != [] {
      var init := tokens[..|tokens| - 1];
      PositionsCount(init, term);
      OccurrencesSnoc(init, tokens[|tokens| - 1], term);
      assert init + [tokens[|tokens| - 1]] == tokens;
    }
  }

  lemma {:induction false} OccurrencesSnoc(tokens: seq<Token>, last: Token, term: Term)
    ensures Occurrences(tokens + [last], term) == Occurrences(tokens, term) + (if last.text == term then 1 else 0)
    decreases |tokens|
  {
    if tokens == [] {
      assert tokens + [last] == [last];
    } else {
      assert (tokens + [last])[1..] == tokens[1..] + [last];
      OccurrencesSnoc(tokens[1..], last, term);
    }
  }

  /** The grouping loop of `add_document`: each distinct text with its positions. */
  method GroupByTerm(tokens: seq<Token>) returns (terms: seq<Term>, groups: map<Term, seq<U32>>)
    ensures terms == FirstOccurrences(tokens)
    ensures forall t :: t in groups <==> t in terms
    ensures forall t :: t in groups ==> groups[t] == PositionsOf(tokens, t)
  {
    terms, groups := [], map[];
    for i := 0 to |tokens|
      invariant terms == FirstOccurrences(tokens[..i])
      invariant forall t :: t in groups <==> t in terms
      invariant forall t :: t in groups ==> groups[t] == PositionsOf(tokens[..i], t)
    {
      var t := tokens[i].text;
      assert tokens[..i + 1][..i] == tokens[..i];
      forall u | u in groups || u == t
        ensures PositionsOf(tokens[..i + 1], u) ==
                PositionsOf(tokens[..i], u) + (if t == u then [tokens[i].position] else [])
      {
        PositionsStep(tokens, i, u);
      }
      if t !in groups {
        PositionsCount(tokens[..i], t);
        terms := terms + [t];
        groups := groups[t := []];
      }
      groups := groups[t := groups[t] + [tokens[i].position]];
    }
    assert tokens[..|tokens|] == tokens;
  }

  // ---------------------------------------------------------------------
  // The index
  // ---------------------------------------------------------------------

  /** The posting `add_document` appends for `term`: its positions in token order,
      their count as the term frequency, and the document's length norm. */
  function NewPosting(docId: DocId, tokens: seq<Token>, term: Term, fieldNorm: real): Posting
  {
    var positions := PositionsOf(tokens, term);
    Posting(docId, TruncU32(|positions|), positions, fieldNorm)
  }

  /** `after` is `before` with the new document's posting appended to the list of each
      term in `done` (a list created for a term seen for the first time), and every
      other list unchanged. */
  ghost predicate Appended(before: map<Term, seq<Posting>>, after: map<Term, seq<Posting>>, done: seq<Term>,
                           docId: DocId, tokens: seq<Token>, fieldNorm: real)
  {
    (forall t :: t in after <==> t in before || t in done) &&
    (forall t :: t in done ==>
       after[t] == (if t in before then before[t] else []) + [NewPosting(docId, tokens, t, fieldNorm)]) &&
    (forall t :: t in before && t !in done ==> after[t] == before[t])
  }

  lemma AppendedStep(before: map<Term, seq<Posting>>, mid: map<Term, seq<Posting>>, done: seq<Term>,
                     term: Term, docId: DocId, tokens: seq<Token>, fieldNorm: real)
    requires Appended(before, mid, done, docId, tokens, fieldNorm) && term !in done
    ensures Appended(before, mid[term := (if term in mid then mid[term] else []) + [NewPosting(docId, tokens, term, fieldNorm)]],
                     done + [term], docId, tokens, fieldNorm)
  {
  }

  lemma DistinctPrefix(terms: seq<Term>, k: nat)
    requires Distinct(terms) && k < |terms|
    ensures terms[k] !in terms[..k] && terms[..k + 1] == terms[..k] + [terms[k]]
  {
  }

  /** A term's postings after `add_document` carry, for the new document, as many
      positions as the term has occurrences. */
  lemma NewPostingFrequency(docId: DocId, tokens: seq<Token>, term: Term, fieldNorm: real)
    requires Occurrences(tokens, term) < U32_MOD
    ensures NewPosting(docId, tokens, term, fieldNorm).termFreq == Occurrences(tokens, term)
    ensures |NewPosting(docId, tokens, term, fieldNorm).positions| == Occurrences(tokens, term)
  {
    PositionsCount(tokens, term);
  }

  /** `InvertedIndex` (without the prefix index, built from the dictionary on demand). */
  class InvertedIndex {
    const dictionary: TermDictionary
    var postings: map<Term, seq<Posting>>
    var docCount: nat
    var totalTokens: nat

    /** The dictionary knows exactly the indexed terms, each with the number of postings
        (as a u32) as its `doc_freq`. */
    ghost predicate Valid()
      reads this`postings, dictionary
    {
      dictionary.Valid() &&
      (forall t :: t in postings <==> t in dictionary.termMap) &&
      (forall t :: t in postings ==>
         dictionary.termInfos[dictionary.termMap[t]].docFreq == TruncU32(|postings[t]|))
    }

    constructor()
      ensures Valid() && fresh(dictionary)
      ensures postings == map[] && docCount == 0 && totalTokens == 0
      ensures dictionary.termInfos == []
    {
      dictionary := new TermDictionary();
      postings := map[];
      docCount := 0;
      totalTokens := 0;
    }

    /** `search_term`. */
    function SearchTerm(term: Term): (r: Option<seq<Posting>>)
      reads this
      ensures r.Some? <==> term in postings
      ensures r.Some? ==> r.value == postings[term]
    {
      if term in postings then Some(postings[term]) else None
    }

    /** `add_document`: appends one posting per distinct term of the document, records
        the new posting counts in the dictionary, and counts the document and its
        tokens. `fieldNorm` is `1 / sqrt(|tokens|)`, computed by the caller. */
    method AddDocument(docId: DocId, tokens: seq<Token>, fieldNorm: real) returns (r: Result<()>)
      modifies this, dictionary
      requires Valid()
      ensures Valid() && r.Ok?
      ensures docCount == old(docCount) + 1
      ensures totalTokens == old(totalTokens) + |tokens|
      ensures Appended(old(postings), postings, FirstOccurrences(tokens), docId, tokens, fieldNorm)
    {
      var terms, groups := GroupByTerm(tokens);
      AppendAll(docId, tokens, fieldNorm, terms, groups);
      docCount := docCount + 1;
      totalTokens := totalTokens + |tokens|;
      return Ok(());
    }

    /** The second loop of `add_document`: one posting per grouped term. */
    method AppendAll(docId: DocId, tokens: seq<Token>, fieldNorm: real, terms: seq<Term>, groups: map<Term, seq<U32>>)
      modifies this, dictionary
      requires Valid()
      requires terms == FirstOccurrences(tokens)
      requires forall t :: t in groups <==> t in terms
      requires forall t :: t in groups ==> groups[t] == PositionsOf(tokens, t)
      ensures Valid()
      ensures docCount == old(docCount) && totalTokens == old(totalTokens)
      ensures Appended(old(postings), postings, terms, docId, tokens, fieldNorm)
    {
      ghost var before := postings;
      FirstOccurrencesDistinct(tokens);
      for k := 0 to |terms|
        invariant Valid()
        invariant docCount == old(docCount) && totalTokens == old(totalTokens)
        invariant Appended(before, postings, terms[..k], docId, tokens, fieldNorm)
      {
        var term := terms[k];
        DistinctPrefix(terms, k);
        var posting := Posting(docId, TruncU32(|groups[term]|), groups[term], fieldNorm);
        assert posting == NewPosting(docId, tokens, term, fieldNorm);
        AppendedStep(before, postings, terms[..k], term, docId, tokens, fieldNorm);
        AppendPosting(term, posting);
      }
      assert terms[..|terms|] == terms;
    }

    /** One step of `add_document`'s second loop: the posting goes at the end of the
        term's list (created empty if absent), and the dictionary learns the list's new
        length. */
    method AppendPosting(term: Term, posting: Posting)
      modifies this, dictionary
      requires Valid()
      ensures Valid()
      ensures postings == old(postings)[term := (if term in old(postings) then old(postings)[term] else []) + [posting]]
      ensures docCount == old(docCount) && totalTokens == old(totalTokens)
    {
      var list := if term in postings then postings[term] else [];
      postings := postings[term := list + [posting]];
      dictionary.AddTerm(term, TruncU32(|postings[term]|));
    }
  }

  // ---------------------------------------------------------------------
  // Fuzzy term search
  // ---------------------------------------------------------------------

  /** A dictionary term within the edit-distance bound, with its distance. */
  datatype FuzzyMatch = FuzzyMatch(term: Term, distance: nat)

  /** The part of the query kept verbatim: the first `prefixLength` characters, when
      the prefix length is positive and the query is long enough. */
  function FuzzyPrefix(term: string, prefixLength: nat): (r: string)
    ensures StartsWith(term, r)
  {
    if prefixLength > 0 && |term| >= prefixLength then term[..prefixLength] else []
  }

  /** The candidates in dictionary order: terms starting with the prefix whose
      remainder is within `maxDistance` of the query's remainder. */
  function Candidates(keys: seq<Term>, prefix: string, suffix: string, maxDistance: nat,
                      distance: (string, string) -> nat): (r: seq<FuzzyMatch>)
    ensures forall m :: m in r ==> m.term in keys && StartsWith(m.term, prefix) &&
                                   m.distance == distance(suffix, m.term[|prefix|..]) &&
                                   m.distance <= maxDistance
  {
    if keys == [] then []
    else
      var rest := Candidates(keys[..|keys| - 1], prefix, suffix, maxDistance, distance);
      var t := keys[|keys| - 1];
      if !StartsWith(t, prefix) then rest
      else
        var d := distance(suffix, t[|prefix|..]);
        if d <= maxDistance then rest + [FuzzyMatch(t, d)] else rest
  }

  /** The matches at distance `d`, in their original order. */
  function AtDistance(ms: seq<FuzzyMatch>, d: nat): (r: seq<FuzzyMatch>)
    ensures forall m :: m in r ==> m in ms && m.distance == d
  {
    if ms == [] then []
    else (if ms[0].distance == d then [ms[0]] else []) + AtDistance(ms[1..], d)
  }

  /** `sort_by_key` on the distance, which is stable: the matches at distance `d`,
      then those at `d + 1`, and so on up to `maxDistance`, each group in its
      original order. */
  function ByDistance(ms: seq<FuzzyMatch>, d: nat, maxDistance: nat): seq<FuzzyMatch>
    decreases maxDistance + 1 - d
  {
    if d > maxDistance then [] else AtDistance(ms, d) + ByDistance(ms, d + 1, maxDistance)
  }

  /** The matches whose distance lies in `lo..=hi`, in their original order. */
  function Within(ms: seq<FuzzyMatch>, lo: nat, hi: nat): seq<FuzzyMatch>
  {
    if ms == [] then []
    else (if lo <= ms[0].distance <= hi then [ms[0]] else []) + Within(ms[1..], lo, hi)
  }

  /** Taking the lowest distance out of a range leaves the rest of the range. */
  lemma {:induction false} WithinSplit(ms: seq<FuzzyMatch>, lo: nat, hi: nat)
    requires lo <= hi
    ensures multiset(Within(ms, lo, hi)) == multiset(AtDistance(ms, lo)) + multiset(Within(ms, lo + 1, hi))
    decreases |ms|
  {
    if ms != [] {
      WithinSplit(ms[1..], lo, hi);
    }
  }

  lemma {:induction false} ByDistanceWithin(ms: seq<FuzzyMatch>, d: nat, maxDistance: nat)
    ensures multiset(ByDistance(ms, d, maxDistance)) == multiset(Within(ms, d, maxDistance))
    decreases maxDistance + 1 - d
  {
    if d > maxDistance {
      WithinEmpty(ms, d, maxDistance);
    } else {
      ByDistanceWithin(ms, d + 1, maxDistance);
      WithinSplit(ms, d, maxDistance);
    }
  }

  lemma {:induction false} WithinEmpty(ms: seq<FuzzyMatch>, lo: nat, hi: nat)
    requires lo > hi
    ensures Within(ms, lo, hi) == []
    decreases |ms|
  {
    if ms != [] {
      WithinEmpty(ms[1..], lo, hi);
    }
  }

  lemma {:induction false} WithinAll(ms: seq<FuzzyMatch>, hi: nat)
    requires forall m :: m in ms ==> m.distance <= hi
    ensures Within(ms, 0, hi) == ms
    decreases |ms|
  {
    if ms != [] {
      WithinAll(ms[1..], hi);
      assert [ms[0]] + ms[1..] == ms;
    }
  }

  lemma {:induction false} ByDistanceBounds(ms: seq<FuzzyMatch>, d: nat, maxDistance: nat)
    ensures forall m :: m in ByDistance(ms, d, maxDistance) ==> d <= m.distance
    decreases maxDistance + 1 - d
  {
    if d <= maxDistance {
      ByDistanceBounds(ms, d + 1, maxDistance);
    }
  }

  /** Non-decreasing distances. */
  predicate SortedByDistance(ms: seq<FuzzyMatch>)
  {
    forall i, j :: 0 <= i < j < |ms| ==> ms[i].distance <= ms[j].distance
  }

  /** Two sorted runs, the first no further than the second, make a sorted run. */
  lemma SortedConcat(a: seq<FuzzyMatch>, b: seq<FuzzyMatch>, d: nat)
    requires forall m :: m in a ==> m.distance == d
    requires SortedByDistance(b) && forall m :: m in b ==> d < m.distance
    ensures SortedByDistance(a + b)
  {
    var r := a + b;
    forall i, j | 0 <= i < j < |r|
      ensures r[i].distance <= r[j].distance
    {
      if j < |a| {
        assert a[i] in a && a[j] in a;
      } else if i < |a| {
        assert a[i] in a && b[j - |a|] in b;
      } else {
        assert r[i] == b[i - |a|] && r[j] == b[j - |a|];
      }
    }
  }

  lemma {:induction false} ByDistanceSorted(ms: seq<FuzzyMatch>, d: nat, maxDistance: nat)
    ensures SortedByDistance(ByDistance(ms, d, maxDistance))
    decreases maxDistance + 1 - d
  {
    if d <= maxDistance {
      ByDistanceSorted(ms, d + 1, maxDistance);
      ByDistanceBounds(ms, d + 1, maxDistance);
      SortedConcat(AtDistance(ms, d), ByDistance(ms, d + 1, maxDistance), d);
    }
  }

  /** The result of `fuzzy_search` is the candidates, reordered by non-decreasing
      distance. */
  lemma FuzzyOrder(ms: seq<FuzzyMatch>, maxDistance: nat)
    requires forall m :: m in ms ==> m.distance <= maxDistance
    ensures multiset(ByDistance(ms, 0, maxDistance)) == multiset(ms)
    ensures SortedByDistance(ByDistance(ms, 0, maxDistance))
  {
    ByDistanceWithin(ms, 0, maxDistance);
    WithinAll(ms, maxDistance);
    ByDistanceSorted(ms, 0, maxDistance);
  }

  /** The candidate-collecting loop of `fuzzy_search`. */
  method CollectCandidates(keys: seq<Term>, prefix: string, suffix: string, maxDistance: nat,
                           distance: (string, string) -> nat)
      returns (matching: seq<FuzzyMatch>)
    ensures matching == Candidates(keys, prefix, suffix, maxDistance, distance)
  {
    matching := [];
    for k := 0 to |keys|
      invariant matching == Candidates(keys[..k], prefix, suffix, maxDistance, distance)
    {
      assert keys[..k + 1][..k] == keys[..k];
      var t := keys[k];
      if prefix != [] && !StartsWith(t, prefix) {
        continue;
      }
      var d := distance(suffix, t[|prefix|..]);
      if d <= maxDistance {
        matching := matching + [FuzzyMatch(t, d)];
      }
    }
    assert keys[..|keys|] == keys;
  }

  /** Reordering keeps exactly the candidates. */
  lemma ByDistanceMembers(ms: seq<FuzzyMatch>, maxDistance: nat)
    requires forall m :: m in ms ==> m.distance <= maxDistance
    ensures forall m :: m in ByDistance(ms, 0, maxDistance) <==> m in ms
  {
    FuzzyOrder(ms, maxDistance);
    var r := ByDistance(ms, 0, maxDistance);
    forall m
      ensures m in r <==> m in ms
    {
      assert m in r <==> m in multiset(r);
      assert m in ms <==> m in multiset(ms);
    }
  }

  /** `fuzzy_search` over the dictionary's terms, visited in the order `keys` (the hash
      map's iteration order). `distance` is the Levenshtein distance of the engine's
      utilities. */
  method FuzzySearch(dictionary: TermDictionary, keys: seq<Term>, term: string, maxDistance: U8,
                     prefixLength: U8, distance: (string, string) -> nat)
      returns (r: Result<seq<FuzzyMatch>>)
    requires dictionary.Valid()
    requires Distinct(keys) && forall t :: t in keys <==> t in dictionary.termMap
    ensures r.Ok?
    ensures var prefix := FuzzyPrefix(term, prefixLength);
            r.value == ByDistance(Candidates(keys, prefix, term[|prefix|..], maxDistance, distance), 0, maxDistance)
    ensures forall m :: m in r.value ==> m.term in dictionary.termMap && m.distance <= maxDistance
    ensures SortedByDistance(r.value)
  {
    var prefix := FuzzyPrefix(term, prefixLength);
    var matching := CollectCandidates(keys, prefix, term[|prefix|..], maxDistance, distance);
    FuzzyOrder(matching, maxDistance);
    ByDistanceMembers(matching, maxDistance);
    r := Ok(ByDistance(matching, 0, maxDistance));
  }
}
