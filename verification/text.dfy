/** The string helpers of Rust's `str` the query code relies on, over strings as
    sequences of Unicode scalar values: `char::is_whitespace`, `split_whitespace`,
    `find`, `split` on a separator, and `trim_matches`. */
module Text {
  import opened Base

  /** `char::is_whitespace`: the Unicode `White_Space` property. */
  predicate IsWhitespace(c: char)
  {
    ('\t' <= c <= '\r') || c == ' ' || c == '\U{0085}' || c == '\U{00A0}' || c == '\U{1680}' ||
    ('\U{2000}' <= c <= '\U{200A}') || c == '\U{2028}' || c == '\U{2029}' || c == '\U{202F}' ||
    c == '\U{205F}' || c == '\U{3000}'
  }

  /** No whitespace anywhere in `s`. */
  predicate NoWhitespace(s: string)
  {
    forall k :: 0 <= k < |s| ==> !IsWhitespace(s[k])
  }

  /** Only whitespace in `s` (vacuously true of the empty string). */
  predicate AllWhitespace(s: string)
  {
    forall k :: 0 <= k < |s| ==> IsWhitespace(s[k])
  }

  /** The length of the run of non-whitespace characters `s` starts with. */
  function WordLength(s: string): (n: nat)
    ensures n <= |s| && NoWhitespace(s[..n])
    ensures n < |s| ==> IsWhitespace(s[n])
  {
    if s == [] || IsWhitespace(s[0]) then 0
    else
      var n := 1 + WordLength(s[1..]);
      assert forall k :: 1 <= k < n ==> s[..n][k] == s[1..][..n - 1][k - 1];
      n
  }

  /** `split_whitespace`: the maximal runs of non-whitespace characters, in order. */
  function SplitWhitespace(s: string): (words: seq<string>)
    ensures forall w :: w in words ==> w != [] && NoWhitespace(w)
    decreases |s|
  {
    if s == [] then []
    else if IsWhitespace(s[0]) then SplitWhitespace(s[1..])
    else
      var n := WordLength(s);
      [s[..n]] + SplitWhitespace(s[n..])
  }

  /** The run length `WordLength` finds is the only one that is free of whitespace
      and ends at whitespace or at the end of the string. */
  lemma WordLengthUnique(s: string, n: nat)
    requires n <= |s| && NoWhitespace(s[..n]) && (n < |s| ==> IsWhitespace(s[n]))
    ensures WordLength(s) == n
  {
    var m := WordLength(s);
    if m < n {
      InsideRun(s, n, m);
    } else if n < m {
      InsideRun(s, m, n);
    }
  }

  /** A character inside a whitespace-free prefix is not whitespace. */
  lemma InsideRun(s: string, n: nat, k: nat)
    requires k < n <= |s| && NoWhitespace(s[..n])
    ensures !IsWhitespace(s[k])
  {
    assert s[..n][k] == s[k];
  }

  /** A non-empty text without whitespace is one word. */
  lemma SplitWord(w: string)
    requires w != [] && NoWhitespace(w)
    ensures SplitWhitespace(w) == [w]
  {
    assert w[..|w|] == w;
    WordLengthUnique(w, |w|);
    assert w[|w|..] == [];
  }

  /** A whitespace character separates the words before it from those after it, so
      together with `SplitWord` this fixes the words as the maximal runs of
      non-whitespace characters, in order. */
  lemma {:induction false} SplitAtWhitespace(a: string, c: char, b: string)
    requires IsWhitespace(c)
    ensures SplitWhitespace(a + [c] + b) == SplitWhitespace(a) + SplitWhitespace(b)
    decreases |a|
  {
    var s := a + [c] + b;
    if a == [] {
      assert s[1..] == b;
    } else if IsWhitespace(a[0]) {
      assert s[1..] == a[1..] + [c] + b;
      SplitAtWhitespace(a[1..], c, b);
    } else {
      var m := WordLength(a);
      assert s[..m] == a[..m];
      assert m < |s| ==> IsWhitespace(s[m]) by {
        if m < |a| { assert s[m] == a[m]; } else { assert s[m] == c; }
      }
      WordLengthUnique(s, m);
      assert s[m..] == a[m..] + [c] + b;
      SplitAtWhitespace(a[m..], c, b);
    }
  }

  /** `split_whitespace` finds no word exactly when the string is all whitespace. */
  lemma {:induction false} SplitWhitespaceEmpty(s: string)
    ensures SplitWhitespace(s) == [] <==> AllWhitespace(s)
    decreases |s|
  {
    if s != [] {
      SplitWhitespaceEmpty(s[1..]);
      if IsWhitespace(s[0]) {
        if AllWhitespace(s[1..]) {
          forall k | 0 <= k < |s|
            ensures IsWhitespace(s[k])
          {
            if k > 0 {
              assert s[k] == s[1..][k - 1];
            }
          }
        } else {
          var k :| 0 <= k < |s[1..]| && !IsWhitespace(s[1..][k]);
          assert s[k + 1] == s[1..][k];
        }
      }
    }
  }

  /** A word of `s` begins at `k`: a non-whitespace character at the start of `s` or
      right after whitespace. */
  predicate WordStart(s: string, k: nat)
  {
    k < |s| && !IsWhitespace(s[k]) && (k == 0 || IsWhitespace(s[k - 1]))
  }

  /** Some word of `s` begins with `p`, located by where it starts. */
  predicate WordBeginsWith(s: string, p: string)
  {
    exists k :: 0 <= k < |s| && WordStart(s, k) && StartsWith(s[k..], p)
  }

  /** A text free of whitespace begins some word of `split_whitespace` exactly when
      it occurs at a word start of the string. */
  lemma {:induction false} WordsStartingWith(s: string, p: string)
    requires NoWhitespace(p)
    ensures (exists w :: w in SplitWhitespace(s) && StartsWith(w, p)) <==> WordBeginsWith(s, p)
    decreases |s|
  {
    if s == [] {
    } else if IsWhitespace(s[0]) {
      WordsStartingWith(s[1..], p);
      SkipWhitespace(s, p);
    } else {
      var n := WordLength(s);
      assert SplitWhitespace(s) == [s[..n]] + SplitWhitespace(s[n..]);
      WordsStartingWith(s[n..], p);
      SkipWord(s, p);
    }
  }

  /** A leading whitespace character begins no word. */
  lemma SkipWhitespace(s: string, p: string)
    requires s != [] && IsWhitespace(s[0])
    ensures WordBeginsWith(s, p) <==> WordBeginsWith(s[1..], p)
  {
    var t := s[1..];
    if WordBeginsWith(s, p) {
      var k :| 0 <= k < |s| && WordStart(s, k) && StartsWith(s[k..], p);
      assert WordStart(t, k - 1) && s[k..] == t[k - 1..];
    }
    if WordBeginsWith(t, p) {
      var k :| 0 <= k < |t| && WordStart(t, k) && StartsWith(t[k..], p);
      assert WordStart(s, k + 1) && s[k + 1..] == t[k..];
    }
  }

  /** The first word of `s` begins with `p`, or some later word does. */
  lemma SkipWord(s: string, p: string)
    requires s != [] && !IsWhitespace(s[0]) && NoWhitespace(p)
    ensures WordBeginsWith(s, p) <==>
              StartsWith(s[..WordLength(s)], p) || WordBeginsWith(s[WordLength(s)..], p)
  {
    var n := WordLength(s);
    if WordBeginsWith(s, p) {
      var k :| 0 <= k < |s| && WordStart(s, k) && StartsWith(s[k..], p);
      if k == 0 {
        FirstWordPrefix(s, p);
      } else {
        LaterWord(s, p, k);
      }
    }
    if StartsWith(s[..n], p) {
      assert WordStart(s, 0) && s[0..][..|p|] == s[..n][..|p|];
    }
    if WordBeginsWith(s[n..], p) {
      var t := s[n..];
      var k :| 0 <= k < |t| && WordStart(t, k) && StartsWith(t[k..], p);
      EarlierWord(s, p, k);
    }
  }

  /** A word of `s` after the first beginning with `p` is one of the rest. */
  lemma LaterWord(s: string, p: string, k: nat)
    requires 0 < k < |s| && WordStart(s, k) && StartsWith(s[k..], p)
    ensures WordBeginsWith(s[WordLength(s)..], p)
  {
    var n := WordLength(s);
    LaterWordStart(s, k);
    assert s[k..] == s[n..][k - n..];
  }

  /** A word of the rest beginning with `p` is one of `s`. */
  lemma EarlierWord(s: string, p: string, k: nat)
    requires k < |s[WordLength(s)..]| && WordStart(s[WordLength(s)..], k)
    requires StartsWith(s[WordLength(s)..][k..], p)
    ensures WordBeginsWith(s, p)
  {
    var n := WordLength(s);
    ShiftedWordStart(s, k);
    assert s[k + n..] == s[n..][k..];
  }

  /** A word start of `s` after its first character lies past the first word. */
  lemma LaterWordStart(s: string, k: nat)
    requires s != [] && 0 < k && WordStart(s, k)
    ensures WordLength(s) < k && WordStart(s[WordLength(s)..], k - WordLength(s))
  {
  }

  /** A word start of what follows the first word is one of `s`. */
  lemma ShiftedWordStart(s: string, k: nat)
    requires WordStart(s[WordLength(s)..], k)
    ensures 0 < k && WordStart(s, k + WordLength(s))
  {
  }

  /** A whitespace-free text that `s` starts with lies within its first word. */
  lemma FirstWordPrefix(s: string, p: string)
    requires NoWhitespace(p) && StartsWith(s, p)
    ensures StartsWith(s[..WordLength(s)], p)
  {
    var n := WordLength(s);
    assert |p| <= n;
    assert s[..n][..|p|] == s[..|p|];
  }

  /** `find` for one character: the first index holding `c`. */
  function IndexOf(s: string, c: char): (r: Option<nat>)
    ensures r.Some? ==> r.value < |s| && s[r.value] == c && c !in s[..r.value]
    ensures r.None? <==> c !in s
  {
    if s == [] then None
    else if s[0] == c then Some(0)
    else
      match IndexOf(s[1..], c)
      case None => None
      case Some(k) =>
        assert s[..k + 1] == [s[0]] + s[1..][..k];
        Some(k + 1)
  }

  /** The first index at or after `from` where `sep` occurs in `s`. */
  function FindFrom<T(==)>(s: seq<T>, sep: seq<T>, from: nat): (r: Option<nat>)
    requires from <= |s|
    ensures r.Some? ==> from <= r.value && OccursAt(s, sep, r.value) &&
                        forall k :: from <= k < r.value ==> !OccursAt(s, sep, k)
    ensures r.None? ==> forall k :: from <= k <= |s| ==> !OccursAt(s, sep, k)
    decreases |s| - from
  {
    if OccursAt(s, sep, from) then Some(from)
    else if from == |s| then None
    else FindFrom(s, sep, from + 1)
  }

  /** `split` on a non-empty separator (a string or, as a one-element sequence, a
      character): the pieces between the occurrences
      found left to right, each search resuming after the previous match. */
  function Split<T(==)>(s: seq<T>, sep: seq<T>): (parts: seq<seq<T>>)
    requires sep != []
    ensures |parts| >= 1
    decreases |s|
  {
    match FindFrom(s, sep, 0)
    case None => [s]
    case Some(k) => [s[..k]] + Split(s[k + |sep|..], sep)
  }

  /** The pieces joined back with the separator. */
  function Join<T>(parts: seq<seq<T>>, sep: seq<T>): seq<T>
  {
    if parts == [] then []
    else if |parts| == 1 then parts[0]
    else parts[0] + sep + Join(parts[1..], sep)
  }

  /** Splitting loses nothing: joining the pieces with the separator gives the
      string back. */
  lemma {:induction false} SplitJoin<T>(s: seq<T>, sep: seq<T>)
    requires sep != []
    ensures Join(Split(s, sep), sep) == s
    decreases |s|
  {
    match FindFrom(s, sep, 0)
    case None =>
    case Some(k) =>
      var rest := s[k + |sep|..];
      var parts := Split(s, sep);
      assert parts == [s[..k]] + Split(rest, sep);
      assert parts[1..] == Split(rest, sep);
      assert Join(parts, sep) == s[..k] + sep + Join(Split(rest, sep), sep);
      SplitJoin(rest, sep);
      assert s[k..k + |sep|] == sep;
      assert s == s[..k] + s[k..k + |sep|] + rest;
  }

  /** Every character of `s` is one `strip` removes. */
  predicate AllStripped(s: string, strip: char -> bool)
  {
    forall k :: 0 <= k < |s| ==> strip(s[k])
  }

  /** A stripped character in front keeps a run stripped. */
  lemma StrippedCons(c: char, t: string, strip: char -> bool)
    requires strip(c) && AllStripped(t, strip)
    ensures AllStripped([c] + t, strip)
  {
    forall k | 0 < k <= |t|
      ensures strip(([c] + t)[k])
    {
      assert ([c] + t)[k] == t[k - 1];
    }
  }

  /** A stripped character at the end keeps a run stripped. */
  lemma StrippedSnoc(t: string, c: char, strip: char -> bool)
    requires strip(c) && AllStripped(t, strip)
    ensures AllStripped(t + [c], strip)
  {
    forall k | 0 <= k < |t|
      ensures strip((t + [c])[k])
    {
      assert (t + [c])[k] == t[k];
    }
  }

  /** `trim_start_matches` with a character class. */
  function TrimStart(s: string, strip: char -> bool): (r: string)
    ensures |r| <= |s| && EndsWith(s, r)
    ensures r == [] || !strip(r[0])
    ensures AllStripped(s[..|s| - |r|], strip)
  {
    if s != [] && strip(s[0]) then
      var r := TrimStart(s[1..], strip);
      assert s[|s| - |r|..] == s[1..][|s[1..]| - |r|..];
      StrippedCons(s[0], s[1..][..|s| - 1 - |r|], strip);
      assert [s[0]] + s[1..][..|s| - 1 - |r|] == s[..|s| - |r|];
      r
    else s
  }

  /** `trim_end_matches` with a character class. */
  function TrimEnd(s: string, strip: char -> bool): (r: string)
    ensures |r| <= |s| && StartsWith(s, r)
    ensures r == [] || !strip(r[|r| - 1])
    ensures AllStripped(s[|r|..], strip)
  {
    if s != [] && strip(s[|s| - 1]) then
      var r := TrimEnd(s[..|s| - 1], strip);
      assert s[..|r|] == s[..|s| - 1][..|r|];
      StrippedSnoc(s[..|s| - 1][|r|..], s[|s| - 1], strip);
      assert s[..|s| - 1][|r|..] + [s[|s| - 1]] == s[|r|..];
      r
    else s
  }

  /** `trim_matches` with one character: both ends stripped. */
  function TrimMatches(s: string, c: char): string
  {
    TrimEnd(TrimStart(s, x => x == c), x => x == c)
  }
}
