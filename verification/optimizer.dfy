/** `QueryOptimizer` (src/query/optimizer.rs): rewrite rules applied once each, in
    order, to the root of a logical plan. */
module Optimizer {
  import opened Base
  import opened Planner

  /** The two rules of the engine; `optimize` on a rule is `Rewrite`. */
  datatype Rule = FilterPushdownRule | LimitMergeRule

  /** `FilterPushdownRule::optimize`: a sort directly over a filter becomes the
      filter over the sort; any other root is left to the caller. */
  function FilterPushdown(plan: LogicalPlan): (r: Option<LogicalPlan>)
    ensures r.Some? <==> plan.Sort? && plan.input.Filter?
    ensures r.Some? ==> r.value.Filter? && r.value.condition == plan.input.condition &&
                        r.value.input == Sort(plan.field, plan.order, plan.input.input)
  {
    match plan
    case Sort(field, order, input) =>
      if input.Filter? then Some(Filter(input.condition, Sort(field, order, input.input))) else None
    case _ => None
  }

  /** `LimitMergeRule::optimize`: a limit directly over a limit becomes one limit of
      the smaller count over the inner input. */
  function LimitMerge(plan: LogicalPlan): (r: Option<LogicalPlan>)
    ensures r.Some? <==> plan.Limit? && plan.input.Limit?
    ensures r.Some? ==> r.value == Limit(Min(plan.n, plan.input.n), plan.input.input)
  {
    match plan
    case Limit(n, input) =>
      if input.Limit? then Some(Limit(if n <= input.n then n else input.n, input.input)) else None
    case _ => None
  }

  function Rewrite(rule: Rule, plan: LogicalPlan): Option<LogicalPlan>
  {
    match rule
    case FilterPushdownRule => FilterPushdown(plan)
    case LimitMergeRule => LimitMerge(plan)
  }

  /** `QueryOptimizer::new`'s rule list. */
  const DEFAULT_RULES: seq<Rule> := [FilterPushdownRule, LimitMergeRule]

  /** The plan after the first `k` rules: each rule that rewrites replaces the plan,
      one that declines leaves it. */
  function ApplyRules(rules: seq<Rule>, plan: LogicalPlan): LogicalPlan
  {
    if rules == [] then plan
    else
      var before := ApplyRules(rules[..|rules| - 1], plan);
      match Rewrite(rules[|rules| - 1], before)
      case Some(next) => next
      case None => before
  }

  /** `QueryOptimizer::optimize`. */
  method Optimize(rules: seq<Rule>, plan: LogicalPlan) returns (optimized: LogicalPlan)
    ensures optimized == ApplyRules(rules, plan)
  {
    optimized := plan;
    for k := 0 to |rules|
      invariant optimized == ApplyRules(rules[..k], plan)
    {
      assert rules[..k + 1][..k] == rules[..k];
      var rewritten := Rewrite(rules[k], optimized);
      if rewritten.Some? {
        optimized := rewritten.value;
      }
    }
    assert rules[..|rules|] == rules;
  }

  /** The rows a plan yields, for the operators whose meaning does not depend on the
      scoring or sorting machinery: a limit keeps the first `n` rows of its input. */
  function Take<T>(n: nat, rows: seq<T>): seq<T>
  {
    if n <= |rows| then rows[..n] else rows
  }

  /** Merging two limits keeps the rows the nested limits keep. */
  lemma LimitMergeSound<T>(n: nat, m: nat, rows: seq<T>)
    ensures Take(n, Take(m, rows)) == Take(Min(n, m), rows)
  {
  }

  /** The default optimizer touches only the root: a plan whose root is neither a
      sort over a filter nor a limit over a limit comes back unchanged, and a limit
      over a limit comes back as one limit of the smaller count. */
  lemma DefaultRulesAtRoot(plan: LogicalPlan)
    ensures !(plan.Sort? && plan.input.Filter?) && !(plan.Limit? && plan.input.Limit?) ==>
              ApplyRules(DEFAULT_RULES, plan) == plan
    ensures plan.Limit? && plan.input.Limit? ==>
              ApplyRules(DEFAULT_RULES, plan) == Limit(Min(plan.n, plan.input.n), plan.input.input)
    ensures plan.Sort? && plan.input.Filter? ==>
              ApplyRules(DEFAULT_RULES, plan) ==
              Filter(plan.input.condition, Sort(plan.field, plan.order, plan.input.input))
  {
    var first := [FilterPushdownRule];
    assert DEFAULT_RULES[..1] == first && first[..0] == [];
    var afterFirst := if FilterPushdown(plan).Some? then FilterPushdown(plan).value else plan;
    assert ApplyRules(first, plan) == afterFirst;
    assert ApplyRules(DEFAULT_RULES, plan) ==
           if LimitMerge(afterFirst).Some? then LimitMerge(afterFirst).value else afterFirst;
  }
}
