/** The structured-logging rule (DEMO002): a `Log...` call on a method symbol
    with a string-typed interpolated-string argument; only the first such
    argument is reported. */
module StructuredLoggingAnalyzer {
  import opened Wrappers
  import opened Syntax
  import opened Trees
  import opened Diagnostics
  import opened Text

  const Rule := Descriptor("DEMO002", Error, "Use structured logging templates instead of string interpolation")

  /** The position of the `k`-th argument of the invocation at `at`. */
  function ArgumentPath(at: Path, k: nat): Path {
    at + [k + 1]
  }

  /** The guards: `x.Log...(...)` that resolves to a method symbol. */
  predicate IsLogCall(n: Node, at: Path, sem: SemanticModel)
    requires n.Invocation?
  {
    n.callee.MemberAccess? && StartsWith(n.callee.name.text, "Log") && at in sem.methodSymbols
  }

  /** Argument `k` is an interpolated string of type `System.String`. */
  predicate Qualifies(n: Node, at: Path, sem: SemanticModel, k: nat)
    requires n.Invocation? && k < |n.args|
  {
    ArgumentPath(at, k) in sem.stringTyped && n.args[k].InterpolatedString?
  }

  /** The first qualifying argument at index `from` or later. */
  function FirstQualifying(n: Node, at: Path, sem: SemanticModel, from: nat): (r: Option<nat>)
    requires n.Invocation? && from <= |n.args|
    ensures r.Some? ==> from <= r.value < |n.args| && Qualifies(n, at, sem, r.value)
    ensures r.Some? ==> forall j :: from <= j < r.value ==> !Qualifies(n, at, sem, j)
    ensures r.None? <==> forall j :: from <= j < |n.args| ==> !Qualifies(n, at, sem, j)
    decreases |n.args| - from
  {
    if from == |n.args| then None
    else if Qualifies(n, at, sem, from) then Some(from)
    else FirstQualifying(n, at, sem, from + 1)
  }

  /** What the handler reports, as a function (the rule engine's view of the method below). */
  function InvocationOutcome(n: Node, at: Path, sem: SemanticModel): (o: Outcome)
    requires n.Invocation?
    ensures !o.Crashed?
    ensures o.Reported? <==> IsLogCall(n, at, sem) && exists k :: 0 <= k < |n.args| && Qualifies(n, at, sem, k)
    ensures o.Reported? ==>
              exists k :: 0 <= k < |n.args| && Qualifies(n, at, sem, k) &&
                (forall j :: 0 <= j < k ==> !Qualifies(n, at, sem, j)) &&
                o.finding == Report(Rule, NodeSpan(ArgumentPath(at, k)), [])
  {
    if !IsLogCall(n, at, sem) then Silent
    else
      match FirstQualifying(n, at, sem, 0)
      case None => Silent
      case Some(k) => Reported(Report(Rule, NodeSpan(ArgumentPath(at, k)), []))
  }

  /** The handler for an invocation at `at`: the guards, then the arguments in
      order until the first qualifying one. */
  method AnalyzeInvocation(n: Node, at: Path, sem: SemanticModel) returns (o: Outcome)
    requires n.Invocation?
    ensures !o.Crashed?
    ensures o.Reported? <==> IsLogCall(n, at, sem) && exists k :: 0 <= k < |n.args| && Qualifies(n, at, sem, k)
    ensures o.Reported? ==>
              exists k :: 0 <= k < |n.args| && Qualifies(n, at, sem, k) &&
                (forall j :: 0 <= j < k ==> !Qualifies(n, at, sem, j)) &&
                o.finding == Report(Rule, NodeSpan(ArgumentPath(at, k)), [])
    ensures o == InvocationOutcome(n, at, sem)
  {
    if !n.callee.MemberAccess? {
      return Silent;
    }
    var methodName := n.callee.name.text;
    if !StartsWith(methodName, "Log") {
      return Silent;
    }
    if at !in sem.methodSymbols {
      return Silent;
    }
    o := Silent;
    var i := 0;
    while i < |n.args|
      invariant 0 <= i <= |n.args|
      invariant o == Silent
      invariant forall j :: 0 <= j < i ==> !Qualifies(n, at, sem, j)
      invariant FirstQualifying(n, at, sem, i) == FirstQualifying(n, at, sem, 0)
    {
      var argument := n.args[i];
      if ArgumentPath(at, i) in sem.stringTyped && argument.InterpolatedString? {
        o := Reported(Report(Rule, NodeSpan(ArgumentPath(at, i)), []));
        break;
      }
      i := i + 1;
    }
  }

  /** The rule as registered: invocations only. */
  function Analyze(n: Node, at: Path, sem: SemanticModel): (o: Outcome)
    ensures !n.Invocation? ==> o == Silent
    ensures n.Invocation? ==> o == InvocationOutcome(n, at, sem)
  {
    if n.Invocation? then InvocationOutcome(n, at, sem) else Silent
  }

  /** A call whose callee is not a member access never fires, whatever its arguments. */
  lemma PlainCallNeverFires(n: Node, at: Path, sem: SemanticModel)
    requires n.Invocation? && !n.callee.MemberAccess?
    ensures Analyze(n, at, sem) == Silent
  {
  }

  /** Argument `k` of the invocation at `at` sits at `ArgumentPath(at, k)`. */
  lemma ArgumentAt(root: Node, at: Path, k: nat)
    requires At(root, at).Some? && At(root, at).value.Invocation? && k < |At(root, at).value.args|
    ensures At(root, ArgumentPath(at, k)) == Some(At(root, at).value.args[k])
  {
    var n := At(root, at).value;
    AtConcat(root, at, [k + 1]);
    assert At(n, [k + 1]) == At(Children(n)[k + 1], []);
  }
}
