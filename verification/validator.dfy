/** `QueryValidator` (src/query/types.rs): limits on the nesting depth of a query
    and on the number of clauses of a top-level Boolean query. The index statistics
    the validator also holds are not consulted by `validate`. */
module Validator {
  import opened Base
  import opened QueryAst

  /** `ValidationConfig`. */
  datatype ValidationConfig = ValidationConfig(maxBoolClauses: nat, maxQueryDepth: nat,
                                               maxWildcardTerms: nat, allowLeadingWildcard: bool)

  /** `ValidationConfig::default()`. */
  function DefaultConfig(): (c: ValidationConfig)
    ensures c.maxBoolClauses == 1024 && c.maxQueryDepth == 10
    ensures c.maxWildcardTerms == 1000 && !c.allowLeadingWildcard
  {
    ValidationConfig(1024, 10, 1000, false)
  }

  /** The error `validate_depth` reports; its message names the depth and the limit. */
  const DEPTH_EXCEEDED := Error(InvalidInput, "query depth exceeds maximum")

  /** The error `validate_bool_clauses` reports; its message names the count and the
      limit. */
  const TOO_MANY_CLAUSES := Error(InvalidInput, "boolean query has too many clauses")

  /** How many levels of Boolean nesting lie below `q`, counting the `must`, `should`
      and `must_not` clauses and not `filter`. */
  function Depth(q: Query): nat
    decreases q, 1
  {
    if q.Bool? then
      var b := q.clauses;
      Max(Max(DepthBelow(b.must), DepthBelow(b.should)), DepthBelow(b.mustNot))
    else 0
  }

  /** One more than the deepest of `qs`, or 0 for no queries. */
  function DepthBelow(qs: seq<Query>): nat
    decreases qs
  {
    if qs == [] then 0 else Max(1 + Depth(qs[0]), DepthBelow(qs[1..]))
  }

  /** `validate_depth`: the node at `depth` and, for a Boolean query, its `must`,
      `should` and `must_not` clauses at `depth + 1`, in that order. */
  function ValidateDepth(config: ValidationConfig, q: Query, depth: nat): (r: Result<()>)
    ensures r.Err? ==> r.error == DEPTH_EXCEEDED
    decreases q, 1
  {
    if depth > config.maxQueryDepth then Err(DEPTH_EXCEEDED)
    else if q.Bool? then
      var b := q.clauses;
      var _ :- ValidateAll(config, b.must, depth + 1);
      var _ :- ValidateAll(config, b.should, depth + 1);
      ValidateAll(config, b.mustNot, depth + 1)
    else Ok(())
  }

  /** The loop of `validate_depth` over one clause list. */
  function ValidateAll(config: ValidationConfig, qs: seq<Query>, depth: nat): (r: Result<()>)
    ensures r.Err? ==> r.error == DEPTH_EXCEEDED
    decreases qs
  {
    if qs == [] then Ok(())
    else
      var _ :- ValidateDepth(config, qs[0], depth);
      ValidateAll(config, qs[1..], depth)
  }

  /** A query passes the depth check at `depth` exactly when its deepest node, at
      `depth + Depth(q)`, is within the limit. */
  lemma {:induction false} ValidateDepthIff(config: ValidationConfig, q: Query, depth: nat)
    ensures ValidateDepth(config, q, depth).Ok? <==> depth + Depth(q) <= config.maxQueryDepth
    decreases q, 1
  {
    if depth <= config.maxQueryDepth && q.Bool? {
      var b := q.clauses;
      ValidateAllIff(config, b.must, depth + 1);
      ValidateAllIff(config, b.should, depth + 1);
      ValidateAllIff(config, b.mustNot, depth + 1);
    }
  }

  /** A clause list at `depth` passes exactly when its deepest node is within the
      limit. */
  lemma {:induction false} ValidateAllIff(config: ValidationConfig, qs: seq<Query>, depth: nat)
    requires depth >= 1
    ensures ValidateAll(config, qs, depth).Ok? <==> qs == [] || depth - 1 + DepthBelow(qs) <= config.maxQueryDepth
    decreases qs
  {
    if qs != [] {
      ValidateDepthIff(config, qs[0], depth);
      ValidateAllIff(config, qs[1..], depth);
    }
  }

  /** The number of clauses `validate_bool_clauses` counts: the top level's `must`,
      `should` and `must_not`, not `filter` and nothing nested. */
  function ClauseCount(q: Query): nat
  {
    if q.Bool? then |q.clauses.must| + |q.clauses.should| + |q.clauses.mustNot| else 0
  }

  /** `validate_bool_clauses`. */
  function ValidateBoolClauses(config: ValidationConfig, q: Query): (r: Result<()>)
    ensures r.Ok? <==> ClauseCount(q) <= config.maxBoolClauses
    ensures r.Err? ==> r.error == TOO_MANY_CLAUSES
  {
    if q.Bool? && |q.clauses.must| + |q.clauses.should| + |q.clauses.mustNot| > config.maxBoolClauses then
      Err(TOO_MANY_CLAUSES)
    else Ok(())
  }

  /** `validate`: the depth check first, then the clause count. */
  function Validate(config: ValidationConfig, q: Query): (r: Result<()>)
    ensures r.Ok? <==> Depth(q) <= config.maxQueryDepth && ClauseCount(q) <= config.maxBoolClauses
    ensures r.Err? ==> r.error.kind == InvalidInput
    ensures r.Err? && Depth(q) > config.maxQueryDepth ==> r.error == DEPTH_EXCEEDED
  {
    ValidateDepthIff(config, q, 0);
    var _ :- ValidateDepth(config, q, 0);
    ValidateBoolClauses(config, q)
  }

  /** Filter clauses are never looked at: adding one changes neither check. */
  lemma FilterIgnored(config: ValidationConfig, b: BoolQuery, extra: Query)
    ensures Validate(config, Bool(b.(filter := b.filter + [extra]))) == Validate(config, Bool(b))
  {
    var b' := b.(filter := b.filter + [extra]);
    assert Depth(Bool(b')) == Depth(Bool(b));
  }
}
