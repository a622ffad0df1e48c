/** `FuzzyAutomaton` and `LevenshteinDFA` (src/search/fuzzy.rs). Strings are taken
    as their UTF-8 bytes, which is what both types look at. */
module Fuzzy {
  import opened Base

  // ---------------------------------------------------------------------
  // Edit distance
  // ---------------------------------------------------------------------

  /** What a substitution of the `i`-th byte of `a` by the `j`-th byte of `b` costs. */
  function Cost(a: seq<Byte>, b: seq<Byte>, i: nat, j: nat): nat
    requires 1 <= i <= |a| && 1 <= j <= |b|
  {
    if a[i - 1] == b[j - 1] then 0 else 1
  }

  function Min3(x: nat, y: nat, z: nat): (m: nat)
    ensures m <= x && m <= y && m <= z
    ensures m == x || m == y || m == z
  {
    if x <= y && x <= z then x else if y <= z then y else z
  }

  /** The Levenshtein distance between the first `i` bytes of `a` and the first `j`
      bytes of `b`: fewest single-byte deletions, insertions and substitutions. */
  function Lev(a: seq<Byte>, b: seq<Byte>, i: nat, j: nat): nat
    requires i <= |a| && j <= |b|
    decreases i + j
  {
    if i == 0 then j
    else if j == 0 then i
    else Min3(Lev(a, b, i - 1, j) + 1, Lev(a, b, i, j - 1) + 1, Lev(a, b, i - 1, j - 1) + Cost(a, b, i, j))
  }

  /** The Levenshtein distance between `a` and `b`. */
  function Distance(a: seq<Byte>, b: seq<Byte>): (d: nat)
    ensures a == [] ==> d == |b|
    ensures b == [] ==> d == |a|
  {
    Lev(a, b, |a|, |b|)
  }

  /** `FuzzyAutomaton::edit_distance`: the two-row dynamic programme. The
      transposition check only ever compares a cell with a candidate it already
      took the minimum over, so the result is the plain Levenshtein distance
      whatever `transpositions` is. */
  method EditDistance(term: seq<Byte>, other: seq<Byte>, transpositions: bool) returns (d: nat)
    ensures d == Distance(term, other)
  {
    var lenA := |term|;
    var lenB := |other|;
    if lenA == 0 {
      return lenB;
    }
    if lenB == 0 {
      return lenA;
    }
    var prevRow := new nat[lenB + 1](k => k);
    var currRow := new nat[lenB + 1];
    for i := 1 to lenA + 1
      invariant fresh(prevRow) && fresh(currRow)
      invariant prevRow.Length == lenB + 1 && currRow.Length == lenB + 1 && prevRow != currRow
      invariant forall k :: 0 <= k <= lenB ==> prevRow[k] == Lev(term, other, i - 1, k)
    {
      FillRow(term, other, transpositions, i, prevRow, currRow);
      prevRow, currRow := currRow, prevRow;
    }
    return prevRow[lenB];
  }

  /** One pass of `edit_distance`'s outer loop: row `i` computed from row `i - 1`. */
  method FillRow(term: seq<Byte>, other: seq<Byte>, transpositions: bool, i: nat,
                 prevRow: array<nat>, currRow: array<nat>)
    requires 1 <= i <= |term| && prevRow.Length == currRow.Length == |other| + 1 && prevRow != currRow
    requires forall k {:trigger prevRow[k]} :: 0 <= k <= |other| ==> prevRow[k] == Lev(term, other, i - 1, k)
    modifies currRow
    ensures forall k :: 0 <= k <= |other| ==> currRow[k] == Lev(term, other, i, k)
  {
    currRow[0] := i;
    for j := 1 to |other| + 1
      invariant currRow[0] == i
      invariant forall k {:trigger currRow[k]} :: 0 <= k < j ==> currRow[k] == Lev(term, other, i, k)
    {
      var cost := if term[i - 1] == other[j - 1] then 0 else 1;
      assert cost == Cost(term, other, i, j);
      var best := Min3(prevRow[j] + 1, currRow[j - 1] + 1, prevRow[j - 1] + cost);
      assert best == Lev(term, other, i, j);
      if transpositions && i > 1 && j > 1 && term[i - 1] == other[j - 2] && term[i - 2] == other[j - 1] {
        best := Min(best, prevRow[j - 1] + cost);
      }
      currRow[j] := best;
    }
  }

  /** The distance is at least the difference of the lengths. */
  lemma {:induction false} LevLower(a: seq<Byte>, b: seq<Byte>, i: nat, j: nat)
    requires i <= |a| && j <= |b|
    ensures i - j <= Lev(a, b, i, j) && j - i <= Lev(a, b, i, j)
    decreases i + j
  {
    if i > 0 && j > 0 {
      LevLower(a, b, i - 1, j);
      LevLower(a, b, i, j - 1);
      LevLower(a, b, i - 1, j - 1);
    }
  }

  /** The distance is at most the longer length. */
  lemma {:induction false} LevUpper(a: seq<Byte>, b: seq<Byte>, i: nat, j: nat)
    requires i <= |a| && j <= |b|
    ensures Lev(a, b, i, j) <= Max(i, j)
    decreases i + j
  {
    if i > 0 && j > 0 {
      LevUpper(a, b, i - 1, j - 1);
    }
  }

  /** The distance does not depend on which side is the term. */
  lemma {:induction false} LevSymmetric(a: seq<Byte>, b: seq<Byte>, i: nat, j: nat)
    requires i <= |a| && j <= |b|
    ensures Lev(a, b, i, j) == Lev(b, a, j, i)
    decreases i + j
  {
    if i > 0 && j > 0 {
      LevSymmetric(a, b, i - 1, j);
      LevSymmetric(a, b, i, j - 1);
      LevSymmetric(a, b, i - 1, j - 1);
      var x, y, z := Lev(a, b, i - 1, j) + 1, Lev(a, b, i, j - 1) + 1, Lev(a, b, i - 1, j - 1) + Cost(a, b, i, j);
      assert Lev(a, b, i, j) == Min3(x, y, z);
      assert Lev(b, a, j, i) == Min3(y, x, z);
    }
  }

  /** Distance 0 only between equal prefixes. */
  lemma {:induction false} LevZeroEqual(a: seq<Byte>, b: seq<Byte>, i: nat, j: nat)
    requires i <= |a| && j <= |b| && Lev(a, b, i, j) == 0
    ensures a[..i] == b[..j]
    decreases i + j
  {
    if i > 0 && j > 0 {
      var z := Lev(a, b, i - 1, j - 1);
      assert Lev(a, b, i, j) == Min3(Lev(a, b, i - 1, j) + 1, Lev(a, b, i, j - 1) + 1, z + Cost(a, b, i, j));
      assert z == 0 && a[i - 1] == b[j - 1];
      LevZeroEqual(a, b, i - 1, j - 1);
      assert a[..i] == a[..i - 1] + [a[i - 1]];
      assert b[..j] == b[..j - 1] + [b[j - 1]];
    }
  }

  /** Equal prefixes are at distance 0. */
  lemma {:induction false} LevEqualZero(a: seq<Byte>, b: seq<Byte>, i: nat, j: nat)
    requires i <= |a| && j <= |b| && a[..i] == b[..j]
    ensures Lev(a, b, i, j) == 0
    decreases i + j
  {
    assert i == |a[..i]| == |b[..j]| == j;
    if i > 0 {
      assert a[..i - 1] == a[..i][..i - 1] == b[..j][..j - 1] == b[..j - 1];
      assert a[i - 1] == a[..i][i - 1] == b[..j][j - 1] == b[j - 1];
      LevEqualZero(a, b, i - 1, j - 1);
      assert Cost(a, b, i, j) == 0;
    }
  }

  /** What `edit_distance` promises: 0 exactly on equal strings, at least the
      difference of the lengths, at most the longer length, symmetric. */
  lemma DistanceFacts(a: seq<Byte>, b: seq<Byte>)
    ensures Distance(a, b) == 0 <==> a == b
    ensures |a| - |b| <= Distance(a, b) && |b| - |a| <= Distance(a, b)
    ensures Distance(a, b) <= Max(|a|, |b|)
    ensures Distance(a, b) == Distance(b, a)
  {
    assert a[..|a|] == a && b[..|b|] == b;
    if Distance(a, b) == 0 {
      LevZeroEqual(a, b, |a|, |b|);
    }
    if a == b {
      LevEqualZero(a, b, |a|, |b|);
    }
    LevLower(a, b, |a|, |b|);
    LevUpper(a, b, |a|, |b|);
    LevSymmetric(a, b, |a|, |b|);
  }

  // ---------------------------------------------------------------------
  // FuzzyAutomaton
  // ---------------------------------------------------------------------

  /** `levenshtein_automata::Distance`: the distance of the end state, exact or only
      bounded below. */
  datatype DfaDistance = Exact(d: U8) | AtLeast(bound: U8)

  /** `FuzzyAutomaton`. A built DFA (from the `levenshtein_automata` crate) is
      represented by the distance its run over a candidate's bytes ends in. */
  datatype FuzzyAutomaton = FuzzyAutomaton(term: seq<Byte>, maxEditDistance: U8, transpositions: bool,
                                           dfa: Option<seq<Byte> -> DfaDistance>)

  /** `FuzzyAutomaton::new`: transpositions on and no DFA built yet. */
  function NewAutomaton(term: seq<Byte>, maxEditDistance: U8): (fa: FuzzyAutomaton)
    ensures fa.term == term && fa.maxEditDistance == maxEditDistance
    ensures fa.transpositions && fa.dfa.None?
  {
    FuzzyAutomaton(term, maxEditDistance, true, None)
  }

  /** `FuzzyAutomaton::matches`: the DFA's exact distance within the limit if a DFA
      is built, otherwise the edit distance within the limit. */
  method Matches(fa: FuzzyAutomaton, candidate: seq<Byte>) returns (r: bool)
    ensures fa.dfa.Some? ==> (r <==> fa.dfa.value(candidate).Exact? && fa.dfa.value(candidate).d <= fa.maxEditDistance)
    ensures fa.dfa.None? ==> (r <==> Distance(fa.term, candidate) <= fa.maxEditDistance)
  {
    if fa.dfa.Some? {
      var distance := fa.dfa.value(candidate);
      return distance.Exact? && distance.d <= fa.maxEditDistance;
    }
    var d := EditDistance(fa.term, candidate, fa.transpositions);
    return d <= fa.maxEditDistance;
  }

  /** Without a DFA the term itself always matches. */
  lemma TermMatchesItself(fa: FuzzyAutomaton)
    requires fa.dfa.None?
    ensures Distance(fa.term, fa.term) <= fa.maxEditDistance
  {
    DistanceFacts(fa.term, fa.term);
  }

  // ---------------------------------------------------------------------
  // LevenshteinDFA
  // ---------------------------------------------------------------------

  type StateId = nat

  datatype DfaState = DfaState(id: StateId, isFinal: bool, distance: U8)

  /** The filler `get_or_create_state` resizes with. */
  const FILLER := DfaState(0, false, 0)

  /** The state a run from `start` reaches over `text`, following `transitions`, or
      None when some byte has no transition. */
  function Run(transitions: map<(StateId, Byte), StateId>, start: StateId, text: seq<Byte>): Option<StateId>
  {
    if text == [] then Some(start)
    else
      match Run(transitions, start, text[..|text| - 1])
      case None => None
      case Some(s) =>
        if (s, text[|text| - 1]) in transitions then Some(transitions[(s, text[|text| - 1])]) else None
  }

  /** A run over two pieces is the run over the second from where the first ends. */
  lemma {:induction false} RunConcat(transitions: map<(StateId, Byte), StateId>, start: StateId, u: seq<Byte>, v: seq<Byte>)
    ensures Run(transitions, start, u + v) ==
            match Run(transitions, start, u)
            case None => None
            case Some(s) => Run(transitions, s, v)
    decreases |v|
  {
    if v != [] {
      var v' := v[..|v| - 1];
      assert (u + v)[..|u + v| - 1] == u + v';
      assert (u + v)[|u + v| - 1] == v[|v| - 1];
      RunConcat(transitions, start, u, v');
    } else {
      assert u + v == u;
    }
  }

  /** Once a run is stuck it stays stuck: a byte with no transition from the state
      reached so far makes the whole run fail. */
  lemma RunStuck(transitions: map<(StateId, Byte), StateId>, start: StateId, text: seq<Byte>, k: nat)
    requires k < |text|
    requires Run(transitions, start, text[..k]).Some?
    requires (Run(transitions, start, text[..k]).value, text[k]) !in transitions
    ensures Run(transitions, start, text) == None
  {
    assert text == text[..k] + text[k..];
    RunConcat(transitions, start, text[..k], text[k..]);
    RunNoneExtends(transitions, Run(transitions, start, text[..k]).value, text[k..]);
  }

  lemma {:induction false} RunNoneExtends(transitions: map<(StateId, Byte), StateId>, s: StateId, v: seq<Byte>)
    requires v != [] && (s, v[0]) !in transitions
    ensures Run(transitions, s, v) == None
    decreases |v|
  {
    if |v| > 1 {
      RunNoneExtends(transitions, s, v[..|v| - 1]);
    }
  }

  /** `LevenshteinDFA`: its states, its transitions and its distance bound. */
  class LevenshteinDfa {
    var states: seq<DfaState>
    var transitions: map<(StateId, Byte), StateId>
    const maxDistance: U8

    /** Every state is the filler or sits at the index of its own id. */
    predicate Valid()
      reads this
    {
      forall k :: 0 <= k < |states| ==> states[k] == FILLER || states[k].id == k
    }

    /** The empty automaton `build` starts from, before its initial state. */
    constructor (maxDistance: U8)
      ensures Valid()
      ensures this.maxDistance == maxDistance && states == [] && transitions == map[]
    {
      this.maxDistance := maxDistance;
      states := [];
      transitions := map[];
    }

    /** The id of the state for `position` and `distance`. */
    function StateIdOf(position: nat, distance: U8): StateId
      reads this
    {
      position * (maxDistance + 1) + distance
    }

    /** `get_or_create_state`: the id is `position * (max + 1) + distance`; an id
        past the end grows the states with fillers up to it, and the state at the
        id becomes a fresh non-final one with that id and distance. */
    method GetOrCreateState(position: nat, distance: U8) returns (id: StateId)
      requires Valid()
      modifies this
      ensures Valid()
      ensures id == old(StateIdOf(position, distance))
      ensures transitions == old(transitions)
      ensures old(|states|) <= id ==>
                |states| == id + 1 && states[..old(|states|)] == old(states) &&
                (forall k :: old(|states|) <= k < id ==> states[k] == FILLER) &&
                states[id] == DfaState(id, false, distance)
      ensures id < old(|states|) ==> states == old(states)
      ensures id < |states| && (states[id] == FILLER || states[id].id == id)
    {
      id := position * (maxDistance + 1) + distance;
      if id >= |states| {
        states := states + seq(id + 1 - |states|, _ => FILLER);
        states := states[id := DfaState(id, false, distance)];
      }
    }

    /** `LevenshteinDFA::matches`: run the bytes from state 0; None when a byte has
        no transition, otherwise the end state's distance if it is a final state. */
    method Matches(text: seq<Byte>) returns (r: Option<U8>)
      ensures Run(transitions, 0, text).None? ==> r.None?
      ensures Run(transitions, 0, text).Some? ==>
                var s := Run(transitions, 0, text).value;
                r == if s < |states| && states[s].isFinal then Some(states[s].distance) else None
    {
      var current: StateId := 0;
      for i := 0 to |text|
        invariant Run(transitions, 0, text[..i]) == Some(current)
      {
        assert text[..i + 1][..i] == text[..i];
        if (current, text[i]) in transitions {
          current := transitions[(current, text[i])];
        } else {
          RunStuck(transitions, 0, text, i);
          return None;
        }
      }
      assert text[..|text|] == text;
      if current < |states| && states[current].isFinal {
        return Some(states[current].distance);
      }
      return None;
    }
  }

  /** Multiplying by a non-negative number keeps the order. */
  lemma {:induction false} MulMonotone(x: nat, y: nat, m: nat)
    requires x <= y
    ensures x * m <= y * m
    decreases y - x
  {
    if x < y {
      MulMonotone(x, y - 1, m);
      assert y * m == (y - 1) * m + m;
    }
  }

  /** Different (position, distance) pairs get different ids as long as the
      distances stay within the bound. */
  lemma StateIdInjective(maxDistance: U8, p1: nat, d1: U8, p2: nat, d2: U8)
    requires d1 <= maxDistance && d2 <= maxDistance
    requires p1 * (maxDistance + 1) + d1 == p2 * (maxDistance + 1) + d2
    ensures p1 == p2 && d1 == d2
  {
    var m := maxDistance + 1;
    if p1 < p2 {
      assert (p1 + 1) * m == p1 * m + m;
      MulMonotone(p1 + 1, p2, m);
    } else if p2 < p1 {
      assert (p2 + 1) * m == p2 * m + m;
      MulMonotone(p2 + 1, p1, m);
    }
  }
}
