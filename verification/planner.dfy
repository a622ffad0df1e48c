/** `QueryPlanner::plan` (src/query/planner.rs): the logical plan of a query. The
    index statistics the planner holds are not consulted by `plan`. */
module Planner {
  import opened QueryAst

  datatype SortOrder = Asc | Desc

  /** `LogicalPlan`; a limit's `usize` is a natural number here and a filter's `predicate` is called `condition`. */
  datatype LogicalPlan =
    | Scan(field: string)
    | IndexSeek(field: string, term: string)
    | Filter(condition: Query, input: LogicalPlan)
    | Sort(field: string, order: SortOrder, input: LogicalPlan)
    | Limit(n: nat, input: LogicalPlan)
    | Union(inputs: seq<LogicalPlan>)
    | Intersection(inputs: seq<LogicalPlan>)
    | Difference(left: LogicalPlan, right: LogicalPlan)

  /** The field the fallback scan reads. */
  const CONTENT: string := "content"

  /** `plan`: a term becomes an index seek, a Boolean query with `must` clauses the
      intersection of their plans, one with only `should` clauses the union of
      theirs, and everything else a scan of `content`. */
  function Plan(q: Query): (r: LogicalPlan)
    ensures q.Term? ==> r == IndexSeek(q.field, q.value)
    ensures q.Bool? && q.clauses.must != [] ==>
              r.Intersection? && |r.inputs| == |q.clauses.must| &&
              forall i :: 0 <= i < |r.inputs| ==> r.inputs[i] == Plan(q.clauses.must[i])
    ensures q.Bool? && q.clauses.must == [] && q.clauses.should != [] ==>
              r.Union? && |r.inputs| == |q.clauses.should| &&
              forall i :: 0 <= i < |r.inputs| ==> r.inputs[i] == Plan(q.clauses.should[i])
    ensures !q.Term? && !(q.Bool? && (q.clauses.must != [] || q.clauses.should != [])) ==> r == Scan(CONTENT)
    decreases q, 1
  {
    match q
    case Term(field, value) => IndexSeek(field, value)
    case Bool(b) =>
      if b.must != [] then Intersection(PlanAll(b.must))
      else if b.should != [] then Union(PlanAll(b.should))
      else Scan(CONTENT)
    case MatchAll => Scan(CONTENT)
    case _ => Scan(CONTENT)
  }

  /** The `map(|q| self.plan(q))` over a clause list. */
  function PlanAll(qs: seq<Query>): (r: seq<LogicalPlan>)
    ensures |r| == |qs| && forall i :: 0 <= i < |qs| ==> r[i] == Plan(qs[i])
    decreases qs
  {
    if qs == [] then [] else [Plan(qs[0])] + PlanAll(qs[1..])
  }

  /** The plan nodes `plan` can build: scans, index seeks, and unions and
      intersections of such plans. */
  predicate Planned(p: LogicalPlan)
  {
    match p
    case Scan(_) => true
    case IndexSeek(_, _) => true
    case Union(inputs) => forall i :: 0 <= i < |inputs| ==> Planned(inputs[i])
    case Intersection(inputs) => forall i :: 0 <= i < |inputs| ==> Planned(inputs[i])
    case _ => false
  }

  /** `plan` never builds a filter, sort, limit or difference. */
  lemma {:induction false} PlanShape(q: Query)
    ensures Planned(Plan(q))
    decreases q
  {
    if q.Bool? {
      var b := q.clauses;
      if b.must != [] {
        forall i | 0 <= i < |b.must|
          ensures Planned(Plan(b.must[i]))
        {
          PlanShape(b.must[i]);
        }
      } else if b.should != [] {
        forall i | 0 <= i < |b.should|
          ensures Planned(Plan(b.should[i]))
        {
          PlanShape(b.should[i]);
        }
      }
    }
  }
}
