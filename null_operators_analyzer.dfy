/** The null-operator rule: `??`, `??=` and `!`. It exists twice in the source,
    once with id DEMO001 and once, in the global namespace, with id DEMO002
    and a shorter message; both are this one function of the descriptor. */
module NullOperatorsAnalyzer {
  import opened Syntax
  import opened Trees
  import opened Diagnostics

  const NamespacedRule := Descriptor("DEMO001", Error, "Null operator '{0}' is used. Use a non-nullable value instead.")
  const GlobalRule := Descriptor("DEMO002", Error, "Null operator '{0}' is used")

  /** The three registered handlers, for the node at `at`, reporting under `rule`. */
  function Analyze(rule: Descriptor, n: Node, at: Path): (o: Outcome)
    ensures !o.Crashed?
    ensures o.Reported? <==> n.Coalesce? || n.CoalesceAssign? || (n.SuppressNullable? && n.op.text == "!")
    ensures o.Reported? ==> o.finding.id == rule.id && o.finding.severity == rule.severity
    ensures o.Reported? ==> o.finding.location == TokenSpan(at, OperatorToken)
    ensures n.Coalesce? ==> o.Reported? && o.finding.args == ["??"]
    ensures n.CoalesceAssign? ==> o.Reported? && o.finding.args == ["??="]
    ensures n.SuppressNullable? && o.Reported? ==> o.finding.args == ["!"]
  {
    match n
    case Coalesce(_, _, _) => Reported(Report(rule, TokenSpan(at, OperatorToken), ["??"]))
    case CoalesceAssign(_, _, _) => Reported(Report(rule, TokenSpan(at, OperatorToken), ["??="]))
    case SuppressNullable(_, op) =>
      if op.text == "!" then Reported(Report(rule, TokenSpan(at, OperatorToken), ["!"])) else Silent
    case _ => Silent
  }

  /** The message argument names the operator: from it one can tell the node's kind. */
  lemma ArgumentIdentifiesOperator(rule: Descriptor, n: Node, at: Path)
    requires Analyze(rule, n, at).Reported?
    ensures Analyze(rule, n, at).finding.args == ["??"] <==> n.Coalesce?
    ensures Analyze(rule, n, at).finding.args == ["??="] <==> n.CoalesceAssign?
    ensures Analyze(rule, n, at).finding.args == ["!"] <==> n.SuppressNullable?
  {
  }

  /** The two copies of the rule fire on the same nodes, at the same place, with the same
      argument; they differ only in id, and so DEMO002's findings go to the DEMO002 fixes. */
  lemma CopiesAgree(n: Node, at: Path)
    ensures Analyze(NamespacedRule, n, at).Reported? == Analyze(GlobalRule, n, at).Reported?
    ensures Analyze(NamespacedRule, n, at).Reported? ==>
              Analyze(NamespacedRule, n, at).finding.(id := GlobalRule.id) == Analyze(GlobalRule, n, at).finding
    ensures NamespacedRule.id == "DEMO001" && GlobalRule.id == "DEMO002"
  {
  }
}
