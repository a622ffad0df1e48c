/** `QueryParser` (src/query/parser.rs): the simplified query-string parser. Number
    and date parsing (`str::parse::<f64>` and RFC 3339 through chrono) are
    parameters. */
module QueryParser {
  import opened Base
  import opened Types
  import opened QueryAst
  import opened Text

  datatype BooleanOperator = And | Or

  /** `QueryParser`'s settings. */
  datatype Parser = Parser(defaultField: string, defaultOperator: BooleanOperator,
                           allowWildcards: bool, fuzzyEnabled: bool)

  /** `QueryParser::new`. */
  function NewParser(): (p: Parser)
    ensures p.defaultField == "content" && p.defaultOperator == Or
    ensures p.allowWildcards && p.fuzzyEnabled
  {
    Parser("content", Or, true, true)
  }

  /** The library parsers `parse_field_value` tries: a float, then an RFC 3339 date
      (as a timestamp). */
  datatype ValueSyntax = ValueSyntax(number: string -> Option<real>, date: string -> Option<int>)

  /** `parse_field_value`: a number if it reads as one, else a date, else text. */
  function ParseFieldValue(syntax: ValueSyntax, s: string): (v: FieldValue)
    ensures syntax.number(s).Some? ==> v == Number(syntax.number(s).value)
    ensures syntax.number(s).None? && syntax.date(s).Some? ==> v == Date(syntax.date(s).value)
    ensures syntax.number(s).None? && syntax.date(s).None? ==> v == Text(s)
  {
    match syntax.number(s)
    case Some(num) => Number(num)
    case None =>
      match syntax.date(s)
      case Some(date) => Date(date)
      case None => Text(s)
  }

  // ---------------------------------------------------------------------
  // Boolean queries
  // ---------------------------------------------------------------------

  predicate IsOperator(token: string)
  {
    token == "AND" || token == "OR" || token == "NOT"
  }

  /** The operator in force after reading `tokens`: set by the last operator word
      (`NOT` sets AND), the parser's default before any. */
  function OperatorAfter(p: Parser, tokens: seq<string>): BooleanOperator
  {
    if tokens == [] then p.defaultOperator
    else
      var last := tokens[|tokens| - 1];
      if last == "OR" then Or
      else if last == "AND" || last == "NOT" then And
      else OperatorAfter(p, tokens[..|tokens| - 1])
  }

  /** The term queries, in order, of the non-operator tokens read while `op` was in
      force. */
  function Routed(p: Parser, tokens: seq<string>, op: BooleanOperator): (r: seq<Query>)
    ensures forall q :: q in r ==> q.Term? && q.field == p.defaultField && q.value in tokens && !IsOperator(q.value)
  {
    if tokens == [] then []
    else
      var init := tokens[..|tokens| - 1];
      var last := tokens[|tokens| - 1];
      var rest := Routed(p, init, op);
      assert forall t :: t in init ==> t in tokens;
      if !IsOperator(last) && OperatorAfter(p, init) == op then rest + [Term(p.defaultField, last)] else rest
  }

  /** The Boolean query `parse_boolean_query` builds. */
  function BoolOf(p: Parser, tokens: seq<string>): BoolQuery
  {
    BoolQuery(Routed(p, tokens, And), Routed(p, tokens, Or), [], [], None)
  }

  /** `parse_boolean_query`: each term goes to `must` under AND and to `should` under
      OR; `NOT` only switches to AND. */
  method ParseBooleanQuery(p: Parser, tokens: seq<string>) returns (r: Result<Query>)
    ensures r == Ok(Bool(BoolOf(p, tokens)))
  {
    var query := EmptyBool;
    var op := p.defaultOperator;
    for i := 0 to |tokens|
      invariant op == OperatorAfter(p, tokens[..i])
      invariant query == BoolOf(p, tokens[..i])
    {
      assert tokens[..i + 1][..i] == tokens[..i];
      var token := tokens[i];
      if token == "AND" {
        op := And;
      } else if token == "OR" {
        op := Or;
      } else if token == "NOT" {
        op := And;
        continue;
      } else {
        var term := Term(p.defaultField, token);
        match op
        case And => query := query.(must := query.must + [term]);
        case Or => query := query.(should := query.should + [term]);
      }
    }
    assert tokens[..|tokens|] == tokens;
    return Ok(Bool(query));
  }

  /** The number of non-operator tokens. */
  function TermCount(tokens: seq<string>): nat
  {
    if tokens == [] then 0
    else TermCount(tokens[..|tokens| - 1]) + (if IsOperator(tokens[|tokens| - 1]) then 0 else 1)
  }

  /** Every non-operator token lands in exactly one of `must` and `should`, and
      nothing lands in `must_not` or `filter`. */
  lemma {:induction false} BoolOfRoutesEveryTerm(p: Parser, tokens: seq<string>)
    ensures |BoolOf(p, tokens).must| + |BoolOf(p, tokens).should| == TermCount(tokens)
    ensures BoolOf(p, tokens).mustNot == [] && BoolOf(p, tokens).filter == []
  {
    if tokens != [] {
      BoolOfRoutesEveryTerm(p, tokens[..|tokens| - 1]);
    }
  }

  // ---------------------------------------------------------------------
  // Range queries
  // ---------------------------------------------------------------------

  /** The text between the brackets: leading `[`/`{` and trailing `]`/`}` stripped. */
  function RangeInner(value: string): string
  {
    TrimEnd(TrimStart(value, c => c == '[' || c == '{'), c => c == ']' || c == '}')
  }

  /** The separator between the bounds. */
  const TO: string := " TO "

  const INVALID_RANGE := Error(ErrorKind.Parse, "Invalid range query")

  /** `parse_range_query`: `[` makes the lower bound inclusive, anything else
      exclusive; `]` at the end makes the upper bound inclusive, anything else
      exclusive; the inner text must split into exactly two parts on " TO ". */
  function ParseRange(syntax: ValueSyntax, field: string, value: string): (r: Result<Query>)
    ensures r.Ok? <==> |Split(RangeInner(value), TO)| == 2
    ensures r.Err? ==> r.error == INVALID_RANGE
    ensures r.Ok? ==> r.value.Range? && r.value.range.field == field &&
                      (r.value.range.gte.Some? <==> StartsWith(value, "[")) &&
                      (r.value.range.gt.Some? <==> !StartsWith(value, "[")) &&
                      (r.value.range.lte.Some? <==> EndsWith(value, "]")) &&
                      (r.value.range.lt.Some? <==> !EndsWith(value, "]"))
  {
    var inclusiveStart := StartsWith(value, "[");
    var inclusiveEnd := EndsWith(value, "]");
    var parts := Split(RangeInner(value), TO);
    if |parts| != 2 then Err(INVALID_RANGE)
    else
      var start := ParseFieldValue(syntax, parts[0]);
      var end := ParseFieldValue(syntax, parts[1]);
      var range := RangeQuery(field,
                              if inclusiveStart then None else Some(start),
                              if inclusiveStart then Some(start) else None,
                              if inclusiveEnd then None else Some(end),
                              if inclusiveEnd then Some(end) else None);
      Ok(Range(range))
  }

  /** The two bounds are the values of the texts on either side of " TO ". */
  lemma RangeBounds(syntax: ValueSyntax, field: string, value: string)
    requires ParseRange(syntax, field, value).Ok?
    ensures var range := ParseRange(syntax, field, value).value.range;
            exists lo, hi :: lo + TO + hi == RangeInner(value) &&
              (if range.gte.Some? then range.gte else range.gt) == Some(ParseFieldValue(syntax, lo)) &&
              (if range.lte.Some? then range.lte else range.lt) == Some(ParseFieldValue(syntax, hi))
  {
    var parts := Split(RangeInner(value), TO);
    SplitJoin(RangeInner(value), TO);
    assert parts[1..] == [parts[1]];
    assert parts[0] + TO + parts[1] == RangeInner(value);
  }

  // ---------------------------------------------------------------------
  // The query string
  // ---------------------------------------------------------------------

  /** What `parse` returns: match-all for a blank string; a phrase for a string
      in quotes; a Boolean query when a token is an operator word; at the first
      ':', a range (value opening with `[` or `{`) or a term on the named field;
      otherwise a term on the default field. */
  function Parsed(p: Parser, syntax: ValueSyntax, input: string, tokens: seq<string>): Result<Query>
    requires tokens == SplitWhitespace(input)
  {
    if tokens == [] then Ok(MatchAll)
    else if StartsWith(input, "\"") && EndsWith(input, "\"") then
      Ok(Phrase(p.defaultField, SplitWhitespace(TrimMatches(input, '"')), 0))
    else if "AND" in tokens || "OR" in tokens || "NOT" in tokens then
      Ok(Bool(BoolOf(p, tokens)))
    else
      match IndexOf(input, ':')
      case Some(pos) =>
        var field := input[..pos];
        var value := input[pos + 1..];
        if StartsWith(value, "[") || StartsWith(value, "{") then ParseRange(syntax, field, value)
        else Ok(Term(field, value))
      case None => Ok(Term(p.defaultField, input))
  }

  /** `parse`. */
  method Parse(p: Parser, syntax: ValueSyntax, input: string) returns (r: Result<Query>)
    ensures r == Parsed(p, syntax, input, SplitWhitespace(input))
  {
    var tokens := SplitWhitespace(input);
    if tokens == [] {
      return Ok(MatchAll);
    }
    if StartsWith(input, "\"") && EndsWith(input, "\"") {
      var phrase := TrimMatches(input, '"');
      return Ok(Phrase(p.defaultField, SplitWhitespace(phrase), 0));
    }
    if "AND" in tokens || "OR" in tokens || "NOT" in tokens {
      r := ParseBooleanQuery(p, tokens);
      return;
    }
    ghost var expected := Parsed(p, syntax, input, tokens);
    var colon := IndexOf(input, ':');
    if colon.Some? {
      var field := input[..colon.value];
      var value := input[colon.value + 1..];
      if StartsWith(value, "[") || StartsWith(value, "{") {
        r := ParseRange(syntax, field, value);
        assert r == expected;
        return;
      }
      return Ok(Term(field, value));
    }
    return Ok(Term(p.defaultField, input));
  }

  /** An empty or all-whitespace string parses to match-all, and nothing else does. */
  lemma ParseBlank(p: Parser, syntax: ValueSyntax, input: string)
    ensures AllWhitespace(input) <==> Parsed(p, syntax, input, SplitWhitespace(input)) == Ok(MatchAll)
  {
    SplitWhitespaceEmpty(input);
  }

  /** A quoted string parses to a slop-0 phrase on the default field whose words
      contain no whitespace. */
  lemma ParsePhrase(p: Parser, syntax: ValueSyntax, input: string)
    requires !AllWhitespace(input) && StartsWith(input, "\"") && EndsWith(input, "\"")
    ensures var r := Parsed(p, syntax, input, SplitWhitespace(input));
            r.Ok? && r.value.Phrase? && r.value.field == p.defaultField && r.value.slop == 0 &&
            forall w :: w in r.value.phrase ==> w != [] && NoWhitespace(w)
  {
    SplitWhitespaceEmpty(input);
  }

  /** Parsing fails only on a malformed range: a field query whose value opens a
      bracket but does not split into two bounds on " TO ". */
  lemma ParseErrors(p: Parser, syntax: ValueSyntax, input: string)
    ensures var r := Parsed(p, syntax, input, SplitWhitespace(input));
            r.Err? ==> r.error == INVALID_RANGE &&
                       exists pos :: 0 <= pos < |input| && input[pos] == ':' && ':' !in input[..pos] &&
                         (StartsWith(input[pos + 1..], "[") || StartsWith(input[pos + 1..], "{")) &&
                         |Split(RangeInner(input[pos + 1..]), TO)| != 2
  {
    var r := Parsed(p, syntax, input, SplitWhitespace(input));
    if r.Err? {
      var pos := IndexOf(input, ':').value;
      assert r == ParseRange(syntax, input[..pos], input[pos + 1..]);
    }
  }

  /** A field query splits at the first ':': the field holds no ':' and field, ':'
      and value give back the input. */
  lemma ParseFieldSplit(p: Parser, syntax: ValueSyntax, input: string)
    requires ':' in input
    ensures var pos := IndexOf(input, ':').value;
            input[..pos] + ":" + input[pos + 1..] == input && ':' !in input[..pos]
  {
    var pos := IndexOf(input, ':').value;
    assert input == input[..pos] + [input[pos]] + input[pos + 1..];
  }
}
