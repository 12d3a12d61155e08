/** The `DateTime.Now` rule (DEMO002): a purely textual match on a simple member access. */
module DateTimeAnalyzer {
  import opened Syntax
  import opened Trees
  import opened Diagnostics

  const Rule := Descriptor("DEMO002", Error, "Replace DateTime.Now with DateTime.UtcNow")

  /** The receiver is the bare identifier `DateTime` and the member is `Now`. */
  predicate IsDateTimeNow(n: Node) {
    n.MemberAccess? && n.expr.IdentifierName? && n.expr.id.text == "DateTime" && n.name.text == "Now"
  }

  /** The handler for a member access at `at`. */
  function AnalyzeMemberAccess(n: Node, at: Path): (o: Outcome)
    requires n.MemberAccess?
    ensures !o.Crashed?
    ensures o.Reported? <==> IsDateTimeNow(n)
    ensures o.Reported? ==> o.finding == Report(Rule, NodeSpan(at), [])
  {
    match n.expr
    case IdentifierName(identifier) =>
      if identifier.text == "DateTime" && n.name.text == "Now" then
        Reported(Report(Rule, NodeSpan(at), []))
      else Silent
    case _ => Silent
  }

  /** The rule as registered: member accesses only. */
  function Analyze(n: Node, at: Path): (o: Outcome)
    ensures !n.MemberAccess? ==> o == Silent
    ensures n.MemberAccess? ==> o == AnalyzeMemberAccess(n, at)
  {
    if n.MemberAccess? then AnalyzeMemberAccess(n, at) else Silent
  }

  /** `DateTime.Now` fires whatever its trivia. */
  lemma NowFires(t1: Trivia, t2: Trivia, at: Path)
    ensures Analyze(MemberAccess(IdentifierName(Token("DateTime", t1)), Token("Now", t2)), at)
         == Reported(Report(Rule, NodeSpan(at), []))
  {
  }

  /** `DateTime.UtcNow` never fires. */
  lemma UtcNowNeverFires(t1: Trivia, t2: Trivia, at: Path)
    ensures Analyze(MemberAccess(IdentifierName(Token("DateTime", t1)), Token("UtcNow", t2)), at) == Silent
  {
  }

  /** `System.DateTime.Now` never fires: its receiver is a member access, not a bare identifier. */
  lemma QualifiedNowNeverFires(t: Trivia, at: Path)
    ensures Analyze(MemberAccess(MemberAccess(IdentifierName(Tok("System")), Tok("DateTime")), Token("Now", t)), at)
         == Silent
  {
  }
}
