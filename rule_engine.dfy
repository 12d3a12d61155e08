/** The analyzers and fixes as the host sees them: each analyzer's callbacks run
    on every node of a tree, and every finding is offered to the fixes whose
    fixable ids include its id. */
module RuleEngine {
  import opened Wrappers
  import opened Syntax
  import opened Trees
  import opened Diagnostics
  import MethodNamingAnalyzer
  import DateTimeAnalyzer
  import NullOperatorsAnalyzer
  import StructuredLoggingAnalyzer

  datatype Analyzer =
    | MethodNaming
    | DateTimeNow
    | NullOperators(rule: Descriptor)
    | StructuredLogging

  /** The five analyzers of the project, the null-operator rule twice. */
  const AllAnalyzers := [MethodNaming, DateTimeNow, NullOperators(NullOperatorsAnalyzer.NamespacedRule),
                         NullOperators(NullOperatorsAnalyzer.GlobalRule), StructuredLogging]

  /** One analyzer's registered callbacks on the node `n` at `at`. */
  function AnalyzeNode(a: Analyzer, n: Node, at: Path, sem: SemanticModel): Outcome {
    match a
    case MethodNaming => MethodNamingAnalyzer.Analyze(n, at)
    case DateTimeNow => DateTimeAnalyzer.Analyze(n, at)
    case NullOperators(rule) => NullOperatorsAnalyzer.Analyze(rule, n, at)
    case StructuredLogging => StructuredLoggingAnalyzer.Analyze(n, at, sem)
  }

  /** The id each analyzer reports under. */
  function RuleId(a: Analyzer): string {
    match a
    case MethodNaming => MethodNamingAnalyzer.Rule.id
    case DateTimeNow => DateTimeAnalyzer.Rule.id
    case NullOperators(rule) => rule.id
    case StructuredLogging => StructuredLoggingAnalyzer.Rule.id
  }

  /** Every finding carries its analyzer's id. */
  lemma FindingCarriesRuleId(a: Analyzer, n: Node, at: Path, sem: SemanticModel)
    requires AnalyzeNode(a, n, at, sem).Reported?
    ensures AnalyzeNode(a, n, at, sem).finding.id == RuleId(a)
  {
    if a.StructuredLogging? {
      var o := AnalyzeNode(a, n, at, sem);
      var k :| 0 <= k < |n.args| && o.finding == Report(StructuredLoggingAnalyzer.Rule, NodeSpan(StructuredLoggingAnalyzer.ArgumentPath(at, k)), []);
    }
  }

  /** The findings of the callbacks at the positions `ps`, in that order; a callback
      that throws reports nothing (the host records the crash instead). */
  function Collect(a: Analyzer, root: Node, sem: SemanticModel, ps: seq<Path>): (fs: seq<Finding>)
    requires forall p :: p in ps ==> ValidPath(root, p)
    ensures forall f :: f in fs <==>
              exists p :: p in ps && ValidPath(root, p) && AnalyzeNode(a, At(root, p).value, p, sem) == Reported(f)
    decreases |ps|
  {
    if ps == [] then []
    else
      assert ps[0] in ps && ValidPath(root, ps[0]);
      var rest := Collect(a, root, sem, ps[1..]);
      assert forall p :: p in ps <==> p == ps[0] || p in ps[1..];
      match AnalyzeNode(a, At(root, ps[0]).value, ps[0], sem)
      case Reported(f) => [f] + rest
      case _ => rest
  }

  /** One analyzer over a whole tree, in document order. */
  function Findings(a: Analyzer, root: Node, sem: SemanticModel): seq<Finding> {
    AllPathsValid(root);
    Collect(a, root, sem, AllPaths(root))
  }

  /** A finding is in the run exactly when some node of the tree reports it. */
  lemma FindingsAreTheReports(a: Analyzer, root: Node, sem: SemanticModel, f: Finding)
    ensures f in Findings(a, root, sem) <==>
              exists p :: ValidPath(root, p) && AnalyzeNode(a, At(root, p).value, p, sem) == Reported(f)
  {
    AllPathsValid(root);
    AllPathsCompleteAll(root);
  }

  // ---- which fixes are offered a finding ----

  datatype FixProvider = NamingFix | UtcNowFix | NullOperatorFix | StructuredLoggingFix

  const AllFixes := [NamingFix, UtcNowFix, NullOperatorFix, StructuredLoggingFix]

  /** Each fix provider's `FixableDiagnosticIds`. */
  function FixableIds(p: FixProvider): seq<string> {
    match p
    case NamingFix => [MethodNamingAnalyzer.Rule.id]
    case UtcNowFix => [DateTimeAnalyzer.Rule.id]
    case NullOperatorFix => ["DEMO002"]
    case StructuredLoggingFix => [StructuredLoggingAnalyzer.Rule.id]
  }

  /** The fixes the host offers a finding to. */
  function OfferedTo(f: Finding): (ps: seq<FixProvider>)
    ensures forall p :: p in ps <==> f.id in FixableIds(p)
  {
    EveryFixListed();
    FilterFixes(AllFixes, f.id)
  }

  lemma EveryFixListed()
    ensures forall p: FixProvider :: p in AllFixes
  {
    forall p: FixProvider ensures p in AllFixes {
      match p
      case NamingFix => assert AllFixes[0] == p;
      case UtcNowFix => assert AllFixes[1] == p;
      case NullOperatorFix => assert AllFixes[2] == p;
      case StructuredLoggingFix => assert AllFixes[3] == p;
    }
  }

  function FilterFixes(ps: seq<FixProvider>, id: string): (r: seq<FixProvider>)
    ensures forall p :: p in r <==> p in ps && id in FixableIds(p)
  {
    if ps == [] then []
    else (if id in FixableIds(ps[0]) then [ps[0]] else []) + FilterFixes(ps[1..], id)
  }

  /** Ids are shared: a finding of the `DateTime.Now` rule, of the global null-operator
      rule or of the structured-logging rule is offered to all three DEMO002 fixes, and a
      finding of the namespaced null-operator rule to the method-naming fix. */
  lemma SharedIdsRouteFindings(a: Analyzer, n: Node, at: Path, sem: SemanticModel)
    requires a in AllAnalyzers && AnalyzeNode(a, n, at, sem).Reported?
    ensures var f := AnalyzeNode(a, n, at, sem).finding;
            && (a == MethodNaming || a == NullOperators(NullOperatorsAnalyzer.NamespacedRule) <==> OfferedTo(f) == [NamingFix])
            && (a == DateTimeNow || a == NullOperators(NullOperatorsAnalyzer.GlobalRule) || a == StructuredLogging <==>
                  OfferedTo(f) == [UtcNowFix, NullOperatorFix, StructuredLoggingFix])
  {
    FindingCarriesRuleId(a, n, at, sem);
    OfferedById(AnalyzeNode(a, n, at, sem).finding);
    assert a == MethodNaming || a == DateTimeNow || a == NullOperators(NullOperatorsAnalyzer.NamespacedRule)
        || a == NullOperators(NullOperatorsAnalyzer.GlobalRule) || a == StructuredLogging;
  }

  /** The fixes offered for each of the two ids the analyzers report. */
  lemma OfferedById(f: Finding)
    ensures f.id == "DEMO001" ==> OfferedTo(f) == [NamingFix]
    ensures f.id == "DEMO002" ==> OfferedTo(f) == [UtcNowFix, NullOperatorFix, StructuredLoggingFix]
  {
    assert FixableIds(NamingFix) == ["DEMO001"] && FixableIds(UtcNowFix) == ["DEMO002"];
    assert FixableIds(NullOperatorFix) == ["DEMO002"] && FixableIds(StructuredLoggingFix) == ["DEMO002"];
    var s3 := [StructuredLoggingFix];
    var s2 := [NullOperatorFix] + s3;
    var s1 := [UtcNowFix] + s2;
    assert AllFixes == [NamingFix] + s1 && AllFixes[1..] == s1 && s1[1..] == s2 && s2[1..] == s3 && s3[1..] == [];
    assert "DEMO001" != "DEMO002" by { assert "DEMO001"[6] != "DEMO002"[6]; }
    var id := f.id;
    if id == "DEMO001" {
      assert id in FixableIds(NamingFix) && id !in FixableIds(UtcNowFix);
      assert FilterFixes(s3, id) == [] && FilterFixes(s2, id) == [] && FilterFixes(s1, id) == [];
    } else if id == "DEMO002" {
      assert id !in FixableIds(NamingFix) && id in FixableIds(UtcNowFix);
      assert FilterFixes(s3, id) == s3 && FilterFixes(s2, id) == s2 && FilterFixes(s1, id) == s1;
    }
  }
}
