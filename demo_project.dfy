/** The demo project's own code as trees, and what the analyzers and fixes do to it. */
module DemoProject {
  import opened Wrappers
  import opened Syntax
  import opened Trees
  import opened Diagnostics
  import opened Text
  import MethodNamingAnalyzer
  import DateTimeAnalyzer
  import NullOperatorsAnalyzer
  import StructuredLoggingAnalyzer
  import MethodNamingFix
  import DateTimeFix
  import NullOperatorFix
  import StructuredLoggingFix
  import RuleEngine

  // ---- Program.cs ----

  const AddNumbersCall := Invocation(MemberAccess(IdentifierName(Tok("calculator")), Tok("addNumbers")),
                                     [Other("NumericLiteral", true, []), Other("NumericLiteral", true, [])])
  const DateTimeNow := MemberAccess(IdentifierName(Tok("DateTime")), Tok("Now"))

  const MainDecl :=
    MethodDecl(Tok("Main"), [
      Other("ExpressionStatement", false, [AddNumbersCall]),
      VarDecl(IdentifierName(Tok("var")), [Declarator(Tok("currentDate"), Some(DateTimeNow))])])
  const AddNumbersDecl := MethodDecl(Tok("addNumbers"), [])

  /** `Main` calling `calculator.addNumbers(5, 3)` and reading `DateTime.Now`, and
      `Calculator` declaring `addNumbers`. */
  const Program :=
    Other("CompilationUnit", true, [
      Other("ClassDeclaration", true, [MainDecl]),
      Other("ClassDeclaration", true, [AddNumbersDecl])])

  const CallAt: Path := [0, 0, 0, 0]
  const NowAt: Path := [0, 0, 1, 1, 0]
  const DeclarationAt: Path := [1, 0]

  const ProgramClass := Other("ClassDeclaration", true, [MainDecl])
  const CallStatement := Other("ExpressionStatement", false, [AddNumbersCall])
  const CurrentDate := VarDecl(IdentifierName(Tok("var")), [Declarator(Tok("currentDate"), Some(DateTimeNow))])

  /** One level down. */
  lemma Step(n: Node, i: nat, rest: Path)
    requires i < |Children(n)|
    ensures At(n, [i] + rest) == At(Children(n)[i], rest)
  {
    assert ([i] + rest)[1..] == rest;
  }

  /** Where `Main`, the call on its first line and the statement around it sit. */
  lemma CallPosition()
    ensures At(Program, [0]) == Some(ProgramClass)
    ensures At(Program, [0, 0]) == Some(MainDecl)
    ensures At(Program, [0, 0, 0]) == Some(CallStatement)
    ensures At(Program, CallAt) == Some(AddNumbersCall)
  {
    MainPosition();
    MainBody();
    AtConcat(Program, [0, 0], [0]);
    AtConcat(Program, [0, 0], [0, 0]);
    assert [0, 0] + [0] == [0, 0, 0] && [0, 0] + [0, 0] == CallAt;
  }

  /** `Main` in its class. */
  lemma MainPosition()
    ensures At(Program, [0]) == Some(ProgramClass)
    ensures At(Program, [0, 0]) == Some(MainDecl)
  {
    assert Children(Program)[0] == ProgramClass && Children(ProgramClass)[0] == MainDecl;
    Step(ProgramClass, 0, []);
    Step(Program, 0, []);
    Step(Program, 0, [0]);
    assert [0] + [] == [0] && [0] + [0] == [0, 0];
  }

  /** The call statement and the call in `Main`'s body. */
  lemma MainBody()
    ensures At(MainDecl, [0]) == Some(CallStatement)
    ensures At(MainDecl, [0, 0]) == Some(AddNumbersCall)
  {
    assert Children(MainDecl)[0] == CallStatement && Children(CallStatement)[0] == AddNumbersCall;
    Step(CallStatement, 0, []);
    Step(MainDecl, 0, []);
    Step(MainDecl, 0, [0]);
    assert [0] + [] == [0] && [0] + [0] == [0, 0];
  }

  /** Where the `DateTime.Now` read sits. */
  lemma NowPosition()
    ensures At(Program, NowAt) == Some(DateTimeNow)
  {
    MainPosition();
    NowInMain();
    AtConcat(Program, [0, 0], [1, 1, 0]);
    assert [0, 0] + [1, 1, 0] == NowAt;
  }

  /** The `DateTime.Now` read in `Main`'s body. */
  lemma NowInMain()
    ensures At(MainDecl, [1, 1, 0]) == Some(DateTimeNow)
  {
    var declarator := Declarator(Tok("currentDate"), Some(DateTimeNow));
    assert Children(MainDecl)[1] == CurrentDate;
    assert Children(CurrentDate)[1] == declarator && Children(declarator)[0] == DateTimeNow;
    Step(declarator, 0, []);
    Step(CurrentDate, 1, [0]);
    Step(MainDecl, 1, [1, 0]);
    assert [0] + [] == [0] && [1] + [0] == [1, 0] && [1] + [1, 0] == [1, 1, 0];
  }

  /** Where `addNumbers` is declared. */
  lemma DeclarationPosition()
    ensures At(Program, DeclarationAt) == Some(AddNumbersDecl)
  {
    var calculator := Other("ClassDeclaration", true, [AddNumbersDecl]);
    assert Children(Program)[1] == calculator && Children(calculator)[0] == AddNumbersDecl;
    Step(calculator, 0, []);
    Step(Program, 1, [0]);
    assert [0] + [] == [0] && [1] + [0] == DeclarationAt;
  }

  /** The naming rule reports the call and the declaration, the `DateTime.Now` rule the read. */
  lemma ProgramFindings()
    ensures MethodNamingAnalyzer.Analyze(AddNumbersCall, CallAt)
         == Reported(Report(MethodNamingAnalyzer.Rule, NodeSpan(CallAt), ["addNumbers"]))
    ensures MethodNamingAnalyzer.Analyze(AddNumbersDecl, DeclarationAt)
         == Reported(Report(MethodNamingAnalyzer.Rule, TokenSpan(DeclarationAt, IdentifierToken), ["addNumbers"]))
    ensures DateTimeAnalyzer.Analyze(DateTimeNow, NowAt) == Reported(Report(DateTimeAnalyzer.Rule, NodeSpan(NowAt), []))
  {
  }

  /** The finding on `calculator.addNumbers(5, 3)`. */
  const CallFinding := Report(MethodNamingAnalyzer.Rule, NodeSpan(CallAt), ["addNumbers"])

  /** The call's finding gets the action that renames the enclosing `Main`. */
  lemma ProgramCallFixRenamesMain()
    ensures MethodNamingFix.ChooseFix(Some(Program), [CallFinding]) == Success(Some(MethodNamingFix.RenameMethodFix([0, 0])))
  {
    CallPosition();
    ProgramFindings();
    MethodNamingFix.AsWrittenLeavesCallUnfixed(Program, CallAt, [0, 0], CallFinding);
    var fix := MethodNamingFix.ChooseFix(Some(Program), [CallFinding]).value.value;
    MethodAboveCall(fix.decl);
  }

  /** `Main` is the only method declaration above the call. */
  lemma MethodAboveCall(d: Path)
    requires d < CallAt && HasKind(Program, d, MethodDeclarationKind)
    ensures d == [0, 0]
  {
    CallPosition();
    assert d == CallAt[..|d|] && |d| < 4;
    assert !IsOfKind(Program, MethodDeclarationKind) && !IsOfKind(ProgramClass, MethodDeclarationKind);
    assert !IsOfKind(CallStatement, MethodDeclarationKind);
    assert CallAt[..0] == [] && CallAt[..1] == [0] && CallAt[..2] == [0, 0] && CallAt[..3] == [0, 0, 0];
  }

  /** `Main` is already PascalCase, so renaming it gives the tree back unchanged. */
  lemma RenamingMainChangesNothing()
    ensures MethodNamingFix.Apply(Program, MethodNamingFix.RenameMethodFix([0, 0])) == Success(Program)
  {
    CallPosition();
    assert PascalCase("Main") == "Main";
    assert MethodDecl(Token(PascalCase(MainDecl.id.text), MainDecl.id.trivia), MainDecl.body) == MainDecl;
    ReplaceAtSame(Program, [0, 0]);
  }

  /** The corrected choice renames the call itself to `AddNumbers`. */
  lemma ProgramCallFixCorrected()
    ensures MethodNamingFix.ChooseFixCorrected(Some(Program), [CallFinding]) == Success(Some(MethodNamingFix.RenameInvocationFix(CallAt)))
    ensures MethodNamingFix.Apply(Program, MethodNamingFix.RenameInvocationFix(CallAt)).Success?
    ensures At(MethodNamingFix.Apply(Program, MethodNamingFix.RenameInvocationFix(CallAt)).value, CallAt)
         == Some(Invocation(MemberAccess(IdentifierName(Tok("calculator")), Tok("AddNumbers")), AddNumbersCall.args))
  {
    CallPosition();
    assert PascalCase("addNumbers") == "AddNumbers";
  }

  /** The `DateTime.Now` fix turns the read into `DateTime.UtcNow`. */
  lemma ProgramNowFix()
    ensures var f := Report(DateTimeAnalyzer.Rule, NodeSpan(NowAt), []);
            && DateTimeFix.FixTarget(Some(Program), [f]) == Success(Some(NowAt))
            && At(DateTimeFix.ReplaceWithUtcNow(Program, NowAt), NowAt) == Some(DateTimeFix.UtcNow)
  {
    NowPosition();
    ProgramFindings();
    DateTimeFix.FixResolvesFinding(Program, NowAt, Report(DateTimeAnalyzer.Rule, NodeSpan(NowAt), []));
  }

  /** Putting back the node that is already there changes nothing. */
  lemma {:induction false} ReplaceAtSame(n: Node, p: Path)
    requires ValidPath(n, p)
    ensures ReplaceAt(n, p, At(n, p).value) == n
    decreases |p|
  {
    if p != [] {
      ReplaceAtSame(Children(n)[p[0]], p[1..]);
      WithChildSame(n, p[0]);
    }
  }

  // ---- LoggingService.cs ----

  const UserLoggedIn := [Text("User "), Hole(IdentifierName(Tok("userName")), None, None), Text(" logged in")]

  /** `_logger.LogInformation(...)` with the given arguments. */
  function LogInformation(args: seq<Node>): Node {
    Invocation(MemberAccess(IdentifierName(Tok("_logger")), Tok("LogInformation")), args)
  }

  /** The host's answers for a call at the root whose first argument is a string. */
  const LoggingModel := SemanticModel({[]}, {[1]}, map[])

  const UserTemplate := "User {userName} logged in"
  const UserName := IdentifierName(Tok("userName"))

  /** The template of `$"User {userName} logged in"` and the expressions its holes hold. */
  lemma UserLoggedInTemplate()
    ensures StructuredLoggingFix.Template(UserLoggedIn) == Success(UserTemplate)
    ensures HoleExprs(UserLoggedIn) == [UserName]
  {
    UserLoggedInJoin();
    UserTemplateSpelled();
    UserLoggedInHoles();
  }

  /** The segments joined: `User ` and the template of the rest. */
  lemma UserLoggedInJoin()
    ensures StructuredLoggingFix.Template(UserLoggedIn) == Success("User " + "{userName} logged in")
  {
    UserLoggedInTail();
    assert StructuredLoggingFix.Segment(UserLoggedIn[0]) == Success("User ");
  }

  lemma UserTemplateSpelled()
    ensures "User " + "{userName} logged in" == UserTemplate
  {
  }

  /** The template of `{userName} logged in`. */
  lemma UserLoggedInTail()
    ensures StructuredLoggingFix.Template(UserLoggedIn[1..]) == Success("{userName} logged in")
  {
    var tail := UserLoggedIn[1..];
    var last := tail[1..];
    assert last == [Text(" logged in")] && last[1..] == [];
    assert StructuredLoggingFix.Template(last[1..]) == Success("");
    assert StructuredLoggingFix.Segment(last[0]) == Success(" logged in");
    assert " logged in" + "" == " logged in";
    assert StructuredLoggingFix.Template(last) == Success(" logged in");
    assert StructuredLoggingFix.Segment(tail[0]) == Success("{" + "userName" + "}");
    assert "{" + "userName" + "}" + " logged in" == "{userName} logged in";
  }

  lemma UserLoggedInHoles()
    ensures HoleExprs(UserLoggedIn) == [UserName]
  {
    var tail := UserLoggedIn[1..];
    assert tail[1..] == [Text(" logged in")] && tail[1..][1..] == [];
    assert HoleExprs(tail[1..][1..]) == [];
    assert HoleExprs(tail[1..]) == [];
    assert HoleExprs(tail) == [UserName];
  }

  /** `LogValid` passes a template with an argument and is silent; `LogInvalid` passes an
      interpolated string and is reported. */
  lemma LoggingServiceFindings()
    ensures StructuredLoggingAnalyzer.Analyze(LogInformation([StringLiteral(UserTemplate), UserName]), [], LoggingModel) == Silent
    ensures StructuredLoggingAnalyzer.Analyze(LogInformation([InterpolatedString(UserLoggedIn)]), [], LoggingModel)
         == Reported(Report(StructuredLoggingAnalyzer.Rule, NodeSpan([1]), []))
  {
    var valid := LogInformation([StringLiteral(UserTemplate), UserName]);
    assert !StructuredLoggingAnalyzer.Qualifies(valid, [], LoggingModel, 0);
    assert !StructuredLoggingAnalyzer.Qualifies(valid, [], LoggingModel, 1);
    var call := LogInformation([InterpolatedString(UserLoggedIn)]);
    assert StructuredLoggingAnalyzer.ArgumentPath([], 0) == [1];
    assert StructuredLoggingAnalyzer.Qualifies(call, [], LoggingModel, 0);
    assert StructuredLoggingAnalyzer.IsLogCall(call, [], LoggingModel);
  }

  /** The fix turns `LogInvalid`'s call into `LogValid`'s. */
  lemma LoggingServiceRoundTrip()
    ensures StructuredLoggingFix.Convert(LogInformation([InterpolatedString(UserLoggedIn)]), [1])
         == Success(LogInformation([StringLiteral(UserTemplate), UserName]))
  {
    var call := LogInformation([InterpolatedString(UserLoggedIn)]);
    UserLoggedInTemplate();
    assert At(call, [1]) == Some(InterpolatedString(UserLoggedIn));
    assert InnermostAbove(call, [1], InvocationKind) == Some([]);
    assert [StringLiteral(UserTemplate)] + call.args[1..] + [UserName] == [StringLiteral(UserTemplate), UserName];
    var r := StructuredLoggingFix.Convert(call, [1]);
    assert At(r.value, []) == Some(r.value);
  }

  const Level := MemberAccess(IdentifierName(Tok("LogLevel")), Tok("Information"))
  const LevelFirst := Invocation(MemberAccess(IdentifierName(Tok("logger")), Tok("Log")), [Level, InterpolatedString(UserLoggedIn)])

  /** `logger.Log(LogLevel.Information, $"User {userName} logged in")`: as written the fix
      overwrites the level with the template and keeps the interpolated string. */
  lemma LevelFirstAsWritten()
    ensures StructuredLoggingFix.Convert(LevelFirst, [2])
         == Success(Invocation(LevelFirst.callee, [StringLiteral(UserTemplate), InterpolatedString(UserLoggedIn), UserName]))
  {
    UserLoggedInTemplate();
    assert At(LevelFirst, [2]) == Some(InterpolatedString(UserLoggedIn));
    assert InnermostAbove(LevelFirst, [2], InvocationKind) == Some([]);
    assert [StringLiteral(UserTemplate)] + LevelFirst.args[1..] + [UserName]
        == [StringLiteral(UserTemplate), InterpolatedString(UserLoggedIn), UserName];
    var r := StructuredLoggingFix.Convert(LevelFirst, [2]);
    assert At(r.value, []) == Some(r.value);
  }

  /** Corrected, the interpolated string itself becomes the template. */
  lemma LevelFirstCorrected()
    ensures StructuredLoggingFix.ConvertCorrected(LevelFirst, [2])
         == Success(Invocation(LevelFirst.callee, [Level, StringLiteral(UserTemplate), UserName]))
  {
    UserLoggedInTemplate();
    assert At(LevelFirst, [2]) == Some(InterpolatedString(UserLoggedIn));
    assert InnermostAbove(LevelFirst, [2], InvocationKind) == Some([]);
    assert StructuredLoggingFix.ArgumentIndex([], [2]) == Some(1);
    assert LevelFirst.args[1 := StringLiteral(UserTemplate)] + [UserName] == [Level, StringLiteral(UserTemplate), UserName];
    var r := StructuredLoggingFix.ConvertCorrected(LevelFirst, [2]);
    assert At(r.value, []) == Some(r.value);
  }

  // ---- the null-operator fix ----

  const NullableDeclaration := VarDecl(NullableType(PredefinedType(Tok("string"))), [Declarator(Tok("nullableThing"), None)])
  const Fallback := Coalesce(IdentifierName(Tok("nullableThing")), Tok("??"), StringLiteral("fallback"))
  const XDeclaration := VarDecl(IdentifierName(Tok("var")), [Declarator(Tok("x"), Some(Fallback))])

  /** `string? nullableThing; var x = nullableThing ?? "fallback";` */
  const NullableBlock := Other("Block", true, [NullableDeclaration, XDeclaration])

  const CoalesceAt: Path := [1, 1, 0]

  /** The finding on the `??`, under the global rule. */
  const CoalesceFinding := Report(NullOperatorsAnalyzer.GlobalRule, TokenSpan(CoalesceAt, OperatorToken), ["??"])

  /** The host binds `nullableThing` in the `??` to the local of that name. */
  const NullableModel := SemanticModel({}, {}, map[CoalesceAt + [0] := "nullableThing"])

  /** Where the declarations, the declarator and the `??` sit. */
  lemma NullableBlockPositions()
    ensures At(NullableBlock, [0]) == Some(NullableDeclaration)
    ensures At(NullableBlock, [0, 0]) == Some(NullableDeclaration.vtype)
    ensures At(NullableBlock, [0, 0, 0]) == Some(NullableDeclaration.vtype.elem)
    ensures At(NullableBlock, [0, 1]) == Some(Declarator(Tok("nullableThing"), None))
    ensures At(NullableBlock, CoalesceAt) == Some(Fallback)
  {
    NullableDeclarationPositions();
    FallbackPosition();
  }

  lemma NullableDeclarationPositions()
    ensures At(NullableBlock, [0]) == Some(NullableDeclaration)
    ensures At(NullableBlock, [0, 0]) == Some(NullableDeclaration.vtype)
    ensures At(NullableBlock, [0, 0, 0]) == Some(NullableDeclaration.vtype.elem)
    ensures At(NullableBlock, [0, 1]) == Some(Declarator(Tok("nullableThing"), None))
  {
    assert Children(NullableBlock)[0] == NullableDeclaration;
    Step(NullableDeclaration, 0, []);
    Step(NullableDeclaration, 0, [0]);
    Step(NullableDeclaration.vtype, 0, []);
    Step(NullableDeclaration, 1, []);
    assert [0] + [] == [0] && [0] + [0] == [0, 0] && [0] + [1] == [0, 1] && [0] + [0, 0] == [0, 0, 0];
    Step(NullableBlock, 0, []);
    Step(NullableBlock, 0, [0]);
    Step(NullableBlock, 0, [0, 0]);
    Step(NullableBlock, 0, [1]);
  }

  lemma FallbackPosition()
    ensures At(NullableBlock, CoalesceAt) == Some(Fallback)
  {
    var declarator := Declarator(Tok("x"), Some(Fallback));
    assert Children(NullableBlock)[1] == XDeclaration;
    assert Children(XDeclaration)[1] == declarator && Children(declarator)[0] == Fallback;
    Step(declarator, 0, []);
    Step(XDeclaration, 1, [0]);
    Step(NullableBlock, 1, [1, 0]);
    assert [1] + [0] == [1, 0] && [1] + [1, 0] == CoalesceAt;
  }

  /** The walk over `string?`. */
  lemma NullableTypeWalk()
    ensures AllPaths(NullableDeclaration.vtype) == [[], [0]]
  {
    var leaf: seq<Path> := [[]];
    assert AllPaths(NullableDeclaration.vtype.elem) == leaf;
    var u := Under(0, leaf);
    assert |u| == 1 && u[0] == [0] + [] == [0];
    assert u == [[0]];
    assert ChildPaths(NullableDeclaration.vtype, 1) == [];
    assert ChildPaths(NullableDeclaration.vtype, 0) == u + [];
  }

  /** The walk over `string? nullableThing`. */
  lemma NullableDeclarationWalk()
    ensures AllPaths(NullableDeclaration) == [[], [0], [0, 0], [1]]
  {
    NullableTypeUnder();
    DeclaratorUnder();
    var w: seq<Path> := [[0], [0, 0]];
    var v: seq<Path> := [[1]];
    assert Children(NullableDeclaration) == [NullableDeclaration.vtype, Declarator(Tok("nullableThing"), None)];
    assert ChildPaths(NullableDeclaration, 2) == [];
    assert ChildPaths(NullableDeclaration, 1) == v + [];
    assert ChildPaths(NullableDeclaration, 0) == w + v;
    assert [[]] + (w + v) == [[], [0], [0, 0], [1]];
  }

  /** The type's positions, seen from the declaration. */
  lemma NullableTypeUnder()
    ensures Under(0, AllPaths(NullableDeclaration.vtype)) == [[0], [0, 0]]
  {
    NullableTypeWalk();
    var w := Under(0, AllPaths(NullableDeclaration.vtype));
    assert |w| == 2 && w[0] == [0] + [] == [0] && w[1] == [0] + [0] == [0, 0];
  }

  /** The declarator's position, seen from the declaration. */
  lemma DeclaratorUnder()
    ensures Under(1, AllPaths(Declarator(Tok("nullableThing"), None))) == [[1]]
  {
    var leaf: seq<Path> := [[]];
    assert AllPaths(Declarator(Tok("nullableThing"), None)) == leaf;
    var v := Under(1, leaf);
    assert |v| == 1 && v[0] == [1] + [] == [1];
  }

  /** The first five positions of the document-order walk. */
  lemma NullableBlockWalk()
    ensures |AllPaths(NullableBlock)| >= 5
    ensures AllPaths(NullableBlock)[..5] == [[], [0], [0, 0], [0, 0, 0], [0, 1]]
  {
    DeclarationUnder();
    var first: seq<Path> := [[0], [0, 0], [0, 0, 0], [0, 1]];
    assert Children(NullableBlock)[0] == NullableDeclaration;
    assert ChildPaths(NullableBlock, 0) == first + ChildPaths(NullableBlock, 1);
    var ps := AllPaths(NullableBlock);
    assert ps == [[]] + (first + ChildPaths(NullableBlock, 1));
    assert ps[..5] == [[]] + first;
  }

  /** The declaration's positions, seen from the block. */
  lemma DeclarationUnder()
    ensures Under(0, AllPaths(NullableDeclaration)) == [[0], [0, 0], [0, 0, 0], [0, 1]]
  {
    NullableDeclarationWalk();
    var first := Under(0, AllPaths(NullableDeclaration));
    assert |first| == 4 && first[0] == [0] + [] == [0] && first[1] == [0] + [0] == [0, 0];
    assert first[2] == [0] + [0, 0] == [0, 0, 0] && first[3] == [0] + [1] == [0, 1];
  }

  /** The local's declarator is the first one named `nullableThing`. */
  lemma NullableDeclaratorFound()
    ensures NullOperatorFix.FindVariableDeclaration(NullableBlock, "nullableThing") == Some([0, 1])
  {
    NullableBlockDeclarators();
    NullableBlockWalk();
    var ps := AllPaths(NullableBlock);
    assert ps[0] == [] && ps[1] == [0] && ps[2] == [0, 0] && ps[3] == [0, 0, 0] && ps[4] == [0, 1];
    NullOperatorFix.FindVariableDeclarationIs(NullableBlock, "nullableThing", 4);
  }

  /** Of the first five positions of the walk, only the last is `nullableThing`'s declarator. */
  lemma NullableBlockDeclarators()
    ensures !NullOperatorFix.IsDeclaratorNamed(NullableBlock, [], "nullableThing")
    ensures !NullOperatorFix.IsDeclaratorNamed(NullableBlock, [0], "nullableThing")
    ensures !NullOperatorFix.IsDeclaratorNamed(NullableBlock, [0, 0], "nullableThing")
    ensures !NullOperatorFix.IsDeclaratorNamed(NullableBlock, [0, 0, 0], "nullableThing")
    ensures NullOperatorFix.IsDeclaratorNamed(NullableBlock, [0, 1], "nullableThing")
  {
    NullableBlockPositions();
  }

  /** The finding on the `??` registers the fix for `nullableThing`'s declarator. */
  lemma NullFixRegistered()
    ensures NullOperatorsAnalyzer.Analyze(NullOperatorsAnalyzer.GlobalRule, Fallback, CoalesceAt) == Reported(CoalesceFinding)
    ensures NullOperatorFix.RegisterFix(Some(NullableBlock), [CoalesceFinding], NullableModel)
         == Some(NullOperatorFix.NullFix([0, 1], CoalesceAt))
  {
    NullableBlockPositions();
    NullableDeclaratorFound();
    assert NullOperatorFix.FirstFixable([CoalesceFinding]) == Some(CoalesceFinding);
    assert NullOperatorFix.Parent([0, 1]) == [0];
    assert NullOperatorFix.IsNullableReferenceType(NullableBlock, [0, 1]);
  }

  /** The fix gives `string nullableThing = string.Empty;` and `var x = nullableThing;`,
      on which the rule is silent. */
  lemma NullFixApplied()
    ensures var r := NullOperatorFix.CompleteFix(NullableBlock, [0, 1], CoalesceAt);
            && r.Success?
            && At(r.value, [0]) == Some(VarDecl(PredefinedType(Tok("string")), [Declarator(Tok("nullableThing"), Some(NullOperatorFix.StringEmpty))]))
            && At(r.value, CoalesceAt) == Some(IdentifierName(Tok("nullableThing")))
            && NullOperatorsAnalyzer.Analyze(NullOperatorsAnalyzer.GlobalRule, At(r.value, CoalesceAt).value, CoalesceAt) == Silent
  {
    NullableBlockPositions();
    assert NullOperatorFix.Parent([0, 1]) == [0];
    assert NullOperatorFix.IsNullableReferenceType(NullableBlock, [0, 1]);
    var stringType := PredefinedType(Tok("string"));
    assert At(NullableBlock, [0]).value.vtype.elem == stringType;
    assert NullOperatorFix.DefaultValue(stringType) == NullOperatorFix.StringEmpty;
    assert NullOperatorFix.NewDeclarator(Declarator(Tok("nullableThing"), None), stringType)
        == Declarator(Tok("nullableThing"), Some(NullOperatorFix.StringEmpty));
    assert Fallback.left == IdentifierName(Tok("nullableThing"));
    NullOperatorFix.CompleteFixDisjoint(NullableBlock, [0, 1], CoalesceAt);
  }

  /** A DEMO002 finding on the `??` of `(a ?? b).Length` is also offered the `DateTime.Now`
      fix, which replaces the whole member access by `DateTime.UtcNow`. */
  lemma CoalesceGetsUtcNowFix()
    ensures var tree := MemberAccess(Coalesce(IdentifierName(Tok("a")), Tok("??"), IdentifierName(Tok("b"))), Tok("Length"));
            var f := Report(NullOperatorsAnalyzer.GlobalRule, TokenSpan([0], OperatorToken), ["??"]);
            && f.id == DateTimeFix.FixableId
            && DateTimeFix.FixTarget(Some(tree), [f]) == Success(Some([]))
            && DateTimeFix.ReplaceWithUtcNow(tree, []) == DateTimeFix.UtcNow
  {
    var tree := MemberAccess(Coalesce(IdentifierName(Tok("a")), Tok("??"), IdentifierName(Tok("b"))), Tok("Length"));
    assert At(tree, [0]) == Some(tree.expr) && [0][..1] == [0];
    InnermostIs(tree, [0], [], MemberAccessKind);
  }

  /** `a ?? b ?? c` parses as `a ?? (b ?? c)`: the rule reports each `??` at its own
      operator token, so a run over the tree holds both findings. */
  lemma NestedCoalesceReportsBoth(rule: Descriptor)
    ensures var inner := Coalesce(IdentifierName(Tok("b")), Tok("??"), IdentifierName(Tok("c")));
            var tree := Coalesce(IdentifierName(Tok("a")), Tok("??"), inner);
            var findings := RuleEngine.Findings(RuleEngine.NullOperators(rule), tree, SemanticModel({}, {}, map[]));
            && Report(rule, TokenSpan([], OperatorToken), ["??"]) in findings
            && Report(rule, TokenSpan([1], OperatorToken), ["??"]) in findings
  {
    var inner := Coalesce(IdentifierName(Tok("b")), Tok("??"), IdentifierName(Tok("c")));
    var tree := Coalesce(IdentifierName(Tok("a")), Tok("??"), inner);
    var sem := SemanticModel({}, {}, map[]);
    assert At(tree, [1]) == Some(inner);
    RuleEngine.FindingsAreTheReports(RuleEngine.NullOperators(rule), tree, sem, Report(rule, TokenSpan([], OperatorToken), ["??"]));
    RuleEngine.FindingsAreTheReports(RuleEngine.NullOperators(rule), tree, sem, Report(rule, TokenSpan([1], OperatorToken), ["??"]));
  }
}
