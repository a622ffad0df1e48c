/** The query tree (src/query/ast.rs). Boosts are `f32` scoring weights that no
    modelled operation reads, so they are left out. */
module QueryAst {
  import opened Base
  import opened Types

  datatype Query =
    | Term(field: string, value: string)
    | Phrase(field: string, phrase: seq<string>, slop: U32)
    | Bool(clauses: BoolQuery)
    | Range(range: RangeQuery)
    | Prefix(field: string, prefix: string)
    | Wildcard(field: string, pattern: string)
    | Fuzzy(field: string, term: string, maxEdits: Option<U8>, prefixLength: Option<U8>)
    | MatchAll

  /** `BoolQuery`: clauses that must, should, must not and (unscored) must match. */
  datatype BoolQuery = BoolQuery(must: seq<Query>, should: seq<Query>, mustNot: seq<Query>,
                                 filter: seq<Query>, minimumShouldMatch: Option<U32>)

  /** `RangeQuery`: optional exclusive and inclusive bounds on one field. */
  datatype RangeQuery = RangeQuery(field: string, gt: Option<FieldValue>, gte: Option<FieldValue>,
                                   lt: Option<FieldValue>, lte: Option<FieldValue>)

  /** `BoolQuery::new`. */
  const EmptyBool := BoolQuery([], [], [], [], None)
}
