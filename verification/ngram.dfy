/** `NGramFilter` (src/analysis/filters/ngram.rs): replaces every token by the runs
    of `n` consecutive characters of its text, for each `n` from `minGram` to
    `maxGram` capped at the text's length. A token's text is its sequence of
    characters. */
module NGram {
  import opened Base
  import opened Types

  /** `NGramFilter`. */
  datatype NGramFilter = NGramFilter(minGram: nat, maxGram: nat)

  /** The longest gram taken from a text of `len` characters. */
  function Longest(f: NGramFilter, len: nat): nat
  {
    Min(f.maxGram, len)
  }

  /** The gram of `n` characters at character `i` of the token: its text is that
      run, it keeps the token's position and type, and its offset is the token's
      offset plus `i`. */
  function Gram(t: Token, n: nat, i: nat): (g: Token)
    requires i + n <= |t.text|
    ensures |g.text| == g.length == n
  {
    Token(t.text[i..i + n], t.position, t.offset + i, n, t.tokenType)
  }

  /** The grams of `n` characters, by starting character. */
  function GramsOfLength(t: Token, n: nat): seq<Token>
    requires n <= |t.text|
  {
    seq(|t.text| - n + 1, i requires 0 <= i <= |t.text| - n => Gram(t, n, i))
  }

  /** The grams of every length from `lo` up to `n - 1`, shortest first. */
  function GramsBelow(t: Token, lo: nat, n: nat): seq<Token>
    requires n <= lo || n <= |t.text| + 1
    decreases n
  {
    if n <= lo then [] else GramsBelow(t, lo, n - 1) + GramsOfLength(t, n - 1)
  }

  /** What the filter makes of one token. */
  function TokenGrams(f: NGramFilter, t: Token): seq<Token>
  {
    GramsBelow(t, f.minGram, Longest(f, |t.text|) + 1)
  }

  /** What the filter makes of a token stream: each token's grams in turn. */
  function FilterSpec(f: NGramFilter, tokens: seq<Token>): seq<Token>
    decreases |tokens|
  {
    if tokens == [] then []
    else FilterSpec(f, tokens[..|tokens| - 1]) + TokenGrams(f, tokens[|tokens| - 1])
  }

  /** `NGramFilter::filter`. */
  method Filter(f: NGramFilter, tokens: seq<Token>) returns (result: seq<Token>)
    ensures result == FilterSpec(f, tokens)
  {
    result := [];
    for k := 0 to |tokens|
      invariant result == FilterSpec(f, tokens[..k])
    {
      result := PushTokenGrams(f, tokens[k], result);
      assert tokens[..k + 1][..k] == tokens[..k];
    }
    assert tokens[..|tokens|] == tokens;
  }

  /** The body of `filter`'s loop over tokens: push the token's grams, length by
      length. */
  method PushTokenGrams(f: NGramFilter, token: Token, acc: seq<Token>) returns (result: seq<Token>)
    ensures result == acc + TokenGrams(f, token)
  {
    result := acc;
    var hi := Min(f.maxGram, |token.text|);
    var n := f.minGram;
    while n <= hi
      invariant f.minGram <= n && (n <= hi + 1 || n == f.minGram)
      invariant result == acc + GramsBelow(token, f.minGram, n)
      decreases hi + 1 - n
    {
      result := PushGramsOfLength(token, n, result);
      n := n + 1;
    }
  }

  /** The body of `filter`'s loop over lengths: push the token's grams of `n`
      characters, left to right. */
  method PushGramsOfLength(token: Token, n: nat, acc: seq<Token>) returns (result: seq<Token>)
    requires n <= |token.text|
    ensures result == acc + GramsOfLength(token, n)
  {
    result := acc;
    var chars := token.text;
    for i := 0 to |chars| - n + 1
      invariant result == acc + GramsOfLength(token, n)[..i]
    {
      result := result + [Token(chars[i..i + n], token.position, token.offset + i, n, token.tokenType)];
      assert GramsOfLength(token, n)[..i + 1] == GramsOfLength(token, n)[..i] + [Gram(token, n, i)];
    }
    assert GramsOfLength(token, n)[..|chars| - n + 1] == GramsOfLength(token, n);
  }

  /** `g` is a run of `g.length` characters of `t`'s text, between `lo` and `hi`
      characters long, at the offset that locates it in `t`, with `t`'s position
      and type. */
  predicate GramOf(t: Token, g: Token, lo: nat, hi: nat)
  {
    g.position == t.position && g.tokenType == t.tokenType &&
    lo <= g.length <= hi && t.offset <= g.offset && g.offset - t.offset + g.length <= |t.text| &&
    g.text == t.text[g.offset - t.offset..g.offset - t.offset + g.length]
  }

  /** Grams come by length, and by offset within one length. */
  predicate Before(a: Token, b: Token)
  {
    a.length < b.length || (a.length == b.length && a.offset < b.offset)
  }

  predicate InGramOrder(s: seq<Token>)
  {
    forall j, k :: 0 <= j < k < |s| ==> Before(s[j], s[k])
  }

  /** Every gram of lengths `lo` to `n - 1` is a run of the token's text. */
  lemma {:induction false} GramsBelowSound(t: Token, lo: nat, n: nat)
    requires n <= |t.text| + 1
    ensures forall g :: g in GramsBelow(t, lo, n) ==> GramOf(t, g, lo, n - 1)
    decreases n
  {
    if n > lo {
      GramsBelowSound(t, lo, n - 1);
      forall g | g in GramsBelow(t, lo, n)
        ensures GramOf(t, g, lo, n - 1)
      {
        if g !in GramsBelow(t, lo, n - 1) {
          var i :| 0 <= i < |GramsOfLength(t, n - 1)| && GramsOfLength(t, n - 1)[i] == g;
          assert g == Gram(t, n - 1, i);
        }
      }
    }
  }

  /** Every run of the token's text of `lo` to `n - 1` characters is among the
      grams. */
  lemma {:induction false} GramsBelowComplete(t: Token, lo: nat, n: nat, m: nat, i: nat)
    requires n <= |t.text| + 1 && lo <= m < n && i + m <= |t.text|
    ensures Gram(t, m, i) in GramsBelow(t, lo, n)
    decreases n
  {
    if m < n - 1 {
      GramsBelowComplete(t, lo, n - 1, m, i);
    } else {
      assert GramsOfLength(t, m)[i] == Gram(t, m, i);
    }
  }

  /** The grams come shortest first, and left to right within one length. */
  lemma {:induction false} GramsBelowOrdered(t: Token, lo: nat, n: nat)
    requires n <= |t.text| + 1
    ensures InGramOrder(GramsBelow(t, lo, n))
    decreases n
  {
    if n > lo {
      GramsBelowOrdered(t, lo, n - 1);
      GramsBelowSound(t, lo, n - 1);
      var a := GramsBelow(t, lo, n - 1);
      var b := GramsOfLength(t, n - 1);
      forall j, k | 0 <= j < k < |a + b|
        ensures Before((a + b)[j], (a + b)[k])
      {
        if k >= |a| && j < |a| {
          assert a[j] in a;
        }
      }
    }
  }

  /** What the filter makes of one token is exactly its runs of `minGram` up to
      `min(maxGram, len)` characters, each once, shortest first and left to right;
      a token shorter than `minGram` yields nothing. */
  lemma TokenGramsExact(f: NGramFilter, t: Token)
    ensures forall g :: g in TokenGrams(f, t) ==> GramOf(t, g, f.minGram, Longest(f, |t.text|))
    ensures forall m: nat, i: nat :: f.minGram <= m <= Longest(f, |t.text|) && i + m <= |t.text| ==>
              Gram(t, m, i) in TokenGrams(f, t)
    ensures InGramOrder(TokenGrams(f, t))
    ensures |t.text| < f.minGram ==> TokenGrams(f, t) == []
  {
    var hi := Longest(f, |t.text|);
    GramsBelowSound(t, f.minGram, hi + 1);
    GramsBelowOrdered(t, f.minGram, hi + 1);
    forall m: nat, i: nat | f.minGram <= m <= hi && i + m <= |t.text|
      ensures Gram(t, m, i) in TokenGrams(f, t)
    {
      GramsBelowComplete(t, f.minGram, hi + 1, m, i);
    }
  }

  /** The grams of each length number one per starting character. */
  lemma {:induction false} GramsBelowCount(t: Token, lo: nat, n: nat)
    requires lo <= n <= |t.text| + 1
    ensures 2 * |GramsBelow(t, lo, n)| == (n - lo) * (2 * |t.text| + 3 - lo - n)
    decreases n
  {
    if n > lo {
      GramsBelowCount(t, lo, n - 1);
      var m, c := n - lo, 2 * |t.text| + 3 - lo - n;
      assert |GramsBelow(t, lo, n)| == |GramsBelow(t, lo, n - 1)| + |t.text| - n + 2;
      assert (m - 1) * (c + 1) == m * c + m - c - 1;
    }
  }

  /** Filtering a stream is filtering its parts in turn. */
  lemma {:induction false} FilterSpecConcat(f: NGramFilter, a: seq<Token>, b: seq<Token>)
    ensures FilterSpec(f, a + b) == FilterSpec(f, a) + FilterSpec(f, b)
    decreases |b|
  {
    if b != [] {
      var b' := b[..|b| - 1];
      assert (a + b)[..|a + b| - 1] == a + b';
      FilterSpecConcat(f, a, b');
    } else {
      assert a + b == a;
    }
  }
}
