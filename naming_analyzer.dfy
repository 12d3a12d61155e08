/** The method-naming rule (DEMO001): a method declaration or a member call
    whose name starts with a lower-case letter. */
module MethodNamingAnalyzer {
  import opened Syntax
  import opened Trees
  import opened Diagnostics
  import opened Text

  const Rule := Descriptor("DEMO001", Error, "Method name '{0}' should start with uppercase")

  /** The name is not empty and its first character is lower case. */
  predicate StartsLower(name: string) {
    |name| > 0 && IsLower(name[0])
  }

  /** The handler for a method declaration at `at`. */
  function AnalyzeMethodDeclaration(n: Node, at: Path): (o: Outcome)
    requires n.MethodDecl?
    ensures !o.Crashed?
    ensures o.Reported? <==> StartsLower(n.id.text)
    ensures o.Reported? ==> o.finding == Report(Rule, TokenSpan(at, IdentifierToken), [n.id.text])
  {
    var methodName := n.id.text;
    if methodName != "" && IsLower(methodName[0]) then
      Reported(Report(Rule, TokenSpan(at, IdentifierToken), [methodName]))
    else
      Silent
  }

  /** The handler for an invocation at `at`. Only a member call `x.name(...)` is
      looked at; its name is indexed without an emptiness check. */
  function AnalyzeInvocationExpression(n: Node, at: Path): (o: Outcome)
    requires n.Invocation?
    ensures o.Crashed? <==> n.callee.MemberAccess? && n.callee.name.text == ""
    ensures o.Crashed? ==> o.reason == IndexOutOfRange
    ensures o.Reported? <==> n.callee.MemberAccess? && StartsLower(n.callee.name.text)
    ensures o.Reported? ==> o.finding == Report(Rule, NodeSpan(at), [n.callee.name.text])
  {
    match n.callee
    case MemberAccess(_, name) =>
      var methodName := name.text;
      if |methodName| == 0 then Crashed(IndexOutOfRange)
      else if IsLower(methodName[0]) then Reported(Report(Rule, NodeSpan(at), [methodName]))
      else Silent
    case _ => Silent
  }

  /** The rule as registered: declarations and invocations, nothing else. */
  function Analyze(n: Node, at: Path): (o: Outcome)
    ensures !n.MethodDecl? && !n.Invocation? ==> o == Silent
    ensures n.MethodDecl? ==> o == AnalyzeMethodDeclaration(n, at)
    ensures n.Invocation? ==> o == AnalyzeInvocationExpression(n, at)
  {
    match n
    case MethodDecl(_, _) => AnalyzeMethodDeclaration(n, at)
    case Invocation(_, _) => AnalyzeInvocationExpression(n, at)
    case _ => Silent
  }

  /** A declaration with an empty identifier never fires. */
  lemma EmptyDeclarationNameNeverFires(n: Node, at: Path)
    requires n.MethodDecl? && n.id.text == ""
    ensures Analyze(n, at) == Silent
  {
  }

  /** A call whose callee is not a member access (`foo()`) never fires. */
  lemma PlainCallNeverFires(n: Node, at: Path)
    requires n.Invocation? && !n.callee.MemberAccess?
    ensures Analyze(n, at) == Silent
  {
  }

  /** A name that starts with anything but a lower-case letter fires on neither path. */
  lemma PascalCaseNeverFires(n: Node, at: Path)
    requires n.MethodDecl? ==> n.id.text != "" && !IsLower(n.id.text[0])
    requires n.Invocation? && n.callee.MemberAccess? ==>
               n.callee.name.text != "" && !IsLower(n.callee.name.text[0])
    ensures Analyze(n, at) == Silent
  {
  }
}
