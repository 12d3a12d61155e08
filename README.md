# Roslyn demo analyzers and code fixes, in Dafny

This project models the rules and code fixes of the `DemoAnalyzers` Roslyn
package and proves properties of them. The package holds five diagnostic analyzers:

- method naming (DEMO001);
- `DateTime.Now` (DEMO002);
- the null-operator rule, which exists twice: once in the `DemoAnalyzers.Analyzers`
  namespace with id DEMO001, once in the global namespace with id DEMO002;
- structured logging (DEMO002).

It also holds four code fixes:

- PascalCase rename, for DEMO001;
- `DateTime.UtcNow`, for DEMO002;
- the nullable-local and `??` fix, for DEMO002;
- the interpolated-string to message-template fix, for DEMO002.

The C# syntax tree is a `Node` datatype. It has a constructor for each node kind the
code inspects, and one generic constructor for everything else. A node's position is
its path of child indices. `At`, `ReplaceAt`, the document-order walk `AllPaths` and
the ancestor searches `Innermost` / `InnermostAbove` stand in for Roslyn's navigation
and `ReplaceNode`.

- An analyzer callback maps one node to an `Outcome`: silent, one `Finding`, or a
  thrown exception.
- A fix maps a tree to a `Result`: the new tree, or the exception the code throws
  (`First()` on nothing, a failed cast, `[0]` on an empty string or list).
- The semantic model is an input. It records which invocations are method symbols,
  which expressions are `System.String`, and which identifiers are bound to a local
  of a given name.
- The null-operator fix drives a `SyntaxEditor`. It is a class that records
  replacements and applies them in order in `GetChangedRoot`.
- The structured-logging analyzer's `foreach ... break` is a method with a loop. It is
  proved equal to a first-match function.

Module by module:

| module | what it holds |
|---|---|
| `Wrappers` | `Option`, `Result` and `FirstIndex` (LINQ `First`/`FirstOrDefault` with a predicate) |
| `Syntax` | the node datatype and its generic child access |
| `Trees` | paths, lookup, replacement, the walk and the ancestor searches |
| `Text` | ASCII `IsLower`/`ToUpper`, the PascalCase rename, `StartsWith` |
| `Diagnostics` | descriptors, locations, findings, exceptions, the semantic model, `FindToken(...).Parent` and `FindNode` |
| `Registration` | what the fix registrations share: `Diagnostics.First()` and the nearest node of a kind |
| `MethodNamingAnalyzer`, `MethodNamingFix` | DEMO001 method naming and its fix |
| `DateTimeAnalyzer`, `DateTimeFix` | `DateTime.Now` and its fix |
| `NullOperatorsAnalyzer`, `NullOperatorFix` | both copies of the null-operator rule, the DEMO002 null fix and the syntax editor |
| `StructuredLoggingAnalyzer`, `StructuredLoggingFix` | the structured-logging rule, its template builder and argument rewrite, and a reader of message templates |
| `RuleEngine` | all analyzers over a whole tree, and which fixes each finding is offered to |
| `DemoProject` | the demo project's `Program.cs` and `LoggingService.cs`, and what the rules and fixes do to them |

The written description of the package differs from the code in a few places. The
model follows the code:

- The null fix handles only `??`. A `??=` or `!` finding gets no action, because only a
  `BinaryExpressionSyntax` is handled.
- The `DateTime` fix replaces the whole member access with a freshly built
  `DateTime.UtcNow`.
- DEMO002 is shared by three rules, so each DEMO002 finding is offered to all three
  DEMO002 fixes.

## Model

| member | source | states |
|---|---|---|
| `Wrappers.FirstIndex` | DemoAnalyzers/CodeFixes/NullOperatorCodeFixProvider.cs:26 | the index found satisfies the predicate and no earlier element does; none exactly when no element satisfies it |
| `Text.ToUpper` | DemoAnalyzers/CodeFixes/MethodNamingConventionCodeFixProvider.cs:59 | a lower-case letter becomes its capital (32 code points lower); any other character is kept; the result is never lower case |
| `Text.PascalCase` | DemoAnalyzers/CodeFixes/MethodNamingConventionCodeFixProvider.cs:59 | the new name has the same length; its first character is `ToUpper` of the old first character, so a lower-case one becomes its capital and the result never starts lower case; the characters after the first are the same; a name that does not start lower case comes back unchanged |
| `Text.PascalCaseIdempotent` | DemoAnalyzers/CodeFixes/MethodNamingConventionCodeFixProvider.cs:78 | renaming a renamed name changes nothing |
| `Trees.ReplaceAtTarget` | DemoAnalyzers/CodeFixes/DateTimeUtcNowCodeFixProvider.cs:56 | after `ReplaceNode` the new node sits at the replaced position |
| `Trees.ReplaceAtMissing` | DemoAnalyzers/CodeFixes/DateTimeUtcNowCodeFixProvider.cs:56 | replacing a node that is not in the tree leaves the tree as it was |
| `Trees.ReplaceAtFrame` | DemoAnalyzers/CodeFixes/DateTimeUtcNowCodeFixProvider.cs:56 | every position neither inside nor above the replaced one reads the same before and after |
| `Trees.ReplaceAtKeepsAncestors` | DemoAnalyzers/CodeFixes/DateTimeUtcNowCodeFixProvider.cs:56 | `ReplaceNode` rebuilds only the path above the replaced node: every node above it is still there and keeps its own tokens, with only the child on the path new |
| `Trees.AncestorsKeptAfterSecond` | DemoAnalyzers/CodeFixes/NullOperatorCodeFixProvider.cs:104-114 | after a second replacement at a disjoint position, the nodes above the first still keep their own tokens |
| `Syntax.WithChild` | DemoAnalyzers/CodeFixes/DateTimeUtcNowCodeFixProvider.cs:56 | rebuilding a node around a new child changes that child only: the other children, the kind and the node's own tokens stay |
| `Syntax.SkeletonAndChildren` | DemoAnalyzers/CodeFixes/DateTimeUtcNowCodeFixProvider.cs:56 | a node is determined by its own tokens together with its children, so keeping both keeps the node |
| `Trees.ReplaceAtAncestor` | DemoAnalyzers/CodeFixes/NullOperatorCodeFixProvider.cs:104-107 | the ancestors of a replaced node keep their kind |
| `Trees.AllPathsValid` | DemoAnalyzers/CodeFixes/NullOperatorCodeFixProvider.cs:64 | the `DescendantNodes` walk visits only positions of the tree |
| `Trees.AllPathsComplete` | DemoAnalyzers/CodeFixes/NullOperatorCodeFixProvider.cs:64 | the walk visits every position of the tree |
| `Trees.AllPathsInOrder` | DemoAnalyzers/CodeFixes/NullOperatorCodeFixProvider.cs:64 | the walk is in document order: a node comes before every node inside it, and the nodes of an earlier child before those of a later child |
| `Trees.Innermost` | DemoAnalyzers/CodeFixes/MethodNamingConventionCodeFixProvider.cs:33-34 | `AncestorsAndSelf().OfType<K>().FirstOrDefault()`: the deepest ancestor-or-self of kind K, nothing of kind K below it; none exactly when no ancestor-or-self has kind K |
| `Trees.InnermostAbove` | DemoAnalyzers/CodeFixes/StructuredLoggingCodeFixProvider.cs:48 | `Ancestors()`: the same search over strict ancestors only |
| `Trees.InnermostIs` | DemoAnalyzers/CodeFixes/DateTimeUtcNowCodeFixProvider.cs:34 | a node of kind K with no node of kind K between it and the start is the one the search returns |
| `Diagnostics.Report` | DemoAnalyzers/Analyzers/MethodNamingConventionAnalyzer.cs:41 | `Diagnostic.Create` carries the descriptor's id and severity, the location and the message arguments |
| `Diagnostics.LeadingTokenOwnerValid` | DemoAnalyzers/CodeFixes/MethodNamingConventionCodeFixProvider.cs:32 | the node that owns a node's first token is a node inside it |
| `Diagnostics.TokenParent` | DemoAnalyzers/CodeFixes/MethodNamingConventionCodeFixProvider.cs:32 | `FindToken(start).Parent`: none exactly when the location is not in the tree; otherwise a node at or below the located node; for a token location, the token's owner |
| `Diagnostics.FindNode` | DemoAnalyzers/CodeFixes/NullOperatorCodeFixProvider.cs:31 | the located node when the location is in the tree, none otherwise |
| `Registration.First` | DemoAnalyzers/CodeFixes/DateTimeUtcNowCodeFixProvider.cs:27 | `First()` throws exactly on an empty diagnostics list; otherwise the first diagnostic |
| `Registration.EnclosingTarget` | DemoAnalyzers/CodeFixes/DateTimeUtcNowCodeFixProvider.cs:21-43 | no action without a root or without a token parent; no diagnostics throws; no ancestor-or-self of the kind throws; otherwise the nearest one |
| `MethodNamingAnalyzer.AnalyzeMethodDeclaration` | DemoAnalyzers/Analyzers/MethodNamingConventionAnalyzer.cs:33-43 | never throws; reports exactly when the identifier is non-empty and starts lower case; the finding is DEMO001 at the identifier token, with the name |
| `MethodNamingAnalyzer.AnalyzeInvocationExpression` | DemoAnalyzers/Analyzers/MethodNamingConventionAnalyzer.cs:45-55 | throws exactly for a member call with an empty name; reports exactly for a member call whose name starts lower case; the finding is at the whole invocation, with the name |
| `MethodNamingAnalyzer.Analyze` | DemoAnalyzers/Analyzers/MethodNamingConventionAnalyzer.cs:29-30 | only method declarations and invocations are looked at; every other node is silent |
| `MethodNamingAnalyzer.EmptyDeclarationNameNeverFires` | DemoAnalyzers/Analyzers/MethodNamingConventionAnalyzer.cs:38 | a declaration with an empty identifier is silent |
| `MethodNamingAnalyzer.PlainCallNeverFires` | DemoAnalyzers/Analyzers/MethodNamingConventionAnalyzer.cs:48-50 | a call `foo()` whose callee is not a member access is silent |
| `MethodNamingAnalyzer.PascalCaseNeverFires` | DemoAnalyzers/Analyzers/MethodNamingConventionAnalyzer.cs:38-53 | a name that does not start lower case is silent on both paths |
| `MethodNamingFix.ChooseFix` | DemoAnalyzers/CodeFixes/MethodNamingConventionCodeFixProvider.cs:23-54 | no diagnostics throws; no root or no token gives no action; the method rename is chosen exactly when some ancestor-or-self of the token is a method declaration, and it targets the nearest one; otherwise the nearest invocation is renamed; there is no action exactly when neither exists |
| `MethodNamingFix.RenameMethodDeclaration` | DemoAnalyzers/CodeFixes/MethodNamingConventionCodeFixProvider.cs:56-69 | throws exactly on an empty identifier; otherwise the declaration gets the PascalCase identifier with the old trivia and the same body; no other position changes, and every node above it keeps its own tokens |
| `MethodNamingFix.RenameInvocationExpression` | DemoAnalyzers/CodeFixes/MethodNamingConventionCodeFixProvider.cs:71-90 | a callee that is not a member access leaves the document unchanged; an empty name throws; otherwise only the member name changes (with its trivia kept), while receiver, arguments and every other position stay, and every node above the call keeps its own tokens |
| `MethodNamingFix.ChooseFixCorrected` | DemoAnalyzers/CodeFixes/MethodNamingConventionCodeFixProvider.cs:23-54 | the corrected choice renames the reported node itself, a declaration or an invocation |
| `MethodNamingFix.CorrectedFixResolvesFinding` | DemoAnalyzers/CodeFixes/MethodNamingConventionCodeFixProvider.cs:23-90 | with the corrected choice every naming finding is fixed at its node; the rule is silent there afterwards, no position outside it changes, and the nodes above it keep their own tokens |
| `MethodNamingFix.SameChildrenBelow` | DemoAnalyzers/CodeFixes/MethodNamingConventionCodeFixProvider.cs:63 | replacing a declaration by one with the same children leaves every node below it unchanged |
| `MethodNamingFix.CallTokenParent` | DemoAnalyzers/CodeFixes/MethodNamingConventionCodeFixProvider.cs:32-33 | for a call `x.f(...)` the token search starts at `x`, and the method declaration found lies strictly above the call |
| `MethodNamingFix.AsWrittenLeavesCallUnfixed` | DemoAnalyzers/CodeFixes/MethodNamingConventionCodeFixProvider.cs:32-53 | as written, a lower-case call inside a method gets the action that renames the enclosing method; the call is unchanged afterwards and reported again |
| `DateTimeAnalyzer.AnalyzeMemberAccess` | DemoAnalyzers/Analyzers/DateTimeUtcNowAnalyzer.cs:35-48 | never throws; reports exactly when the receiver is the bare identifier `DateTime` and the name is `Now`; the finding is at the whole node and has no arguments |
| `DateTimeAnalyzer.Analyze` | DemoAnalyzers/Analyzers/DateTimeUtcNowAnalyzer.cs:32 | only member accesses are looked at |
| `DateTimeAnalyzer.NowFires` | DemoAnalyzers/Analyzers/DateTimeUtcNowAnalyzer.cs:40-42 | `DateTime.Now` fires whatever its trivia |
| `DateTimeAnalyzer.UtcNowNeverFires` | DemoAnalyzers/Analyzers/DateTimeUtcNowAnalyzer.cs:42 | `DateTime.UtcNow` is silent |
| `DateTimeAnalyzer.QualifiedNowNeverFires` | DemoAnalyzers/Analyzers/DateTimeUtcNowAnalyzer.cs:40 | `System.DateTime.Now` is silent, because its receiver is not a bare identifier |
| `DateTimeFix.ReplaceWithUtcNow` | DemoAnalyzers/CodeFixes/DateTimeUtcNowCodeFixProvider.cs:45-61 | the target becomes `DateTime.UtcNow`, whatever it held; a target not in the tree changes nothing; every position outside the target is unchanged, and every node above it keeps its own tokens |
| `DateTimeFix.FixResolvesFinding` | DemoAnalyzers/CodeFixes/DateTimeUtcNowCodeFixProvider.cs:21-61 | for the rule's own finding the target is exactly the reported `DateTime.Now`, and the rule is silent there after the fix |
| `DateTimeFix.CoalesceFindingGetsThisFix` | DemoAnalyzers/CodeFixes/DateTimeUtcNowCodeFixProvider.cs:17-43 | a `??` finding of the global null rule has id DEMO002; its registration throws exactly when no member access encloses the `??`; otherwise the enclosing member access is replaced by `DateTime.UtcNow` |
| `NullOperatorsAnalyzer.Analyze` | DemoAnalyzers/Analyzers/NullOperatorsAnalyzer.cs:36-72 | never throws; reports exactly for `??`, `??=`, and a postfix `!`; the finding is at the operator token with the rule's id and severity, and its argument is the operator's text |
| `NullOperatorsAnalyzer.ArgumentIdentifiesOperator` | DemoAnalyzers/Analyzers/NullOperatorsAnalyzer.cs:41-72 | the message argument determines which of the three kinds was reported |
| `NullOperatorsAnalyzer.CopiesAgree` | DemoAnalyzers/Analyzers/NullOperatorAnalyzer.cs:10-60 | the global copy fires on the same nodes, at the same place and with the same argument, as the namespaced one; only the id differs (DEMO002 against DEMO001) |
| `NullOperatorFix.FirstFixable` | DemoAnalyzers/CodeFixes/NullOperatorCodeFixProvider.cs:26 | the first DEMO002 diagnostic of the context; none exactly when there is none |
| `NullOperatorFix.FindVariableDeclaration` | DemoAnalyzers/CodeFixes/NullOperatorCodeFixProvider.cs:61-67 | a declarator with the local's name that no earlier declarator of the walk has; none exactly when no declarator anywhere has that name, whatever its scope |
| `NullOperatorFix.FoundFirstInDocumentOrder` | DemoAnalyzers/CodeFixes/NullOperatorCodeFixProvider.cs:61-67 | no declarator with the local's name comes before the one found in document order |
| `NullOperatorFix.DefaultValue` | DemoAnalyzers/CodeFixes/NullOperatorCodeFixProvider.cs:118-126 | `string.Empty` for the `string` keyword, `default` for every other type |
| `NullOperatorFix.NewDeclarator` | DemoAnalyzers/CodeFixes/NullOperatorCodeFixProvider.cs:92-98 | the same identifier; an existing initializer is kept, and otherwise the default value of the element type is added |
| `NullOperatorFix.RegisterFix` | DemoAnalyzers/CodeFixes/NullOperatorCodeFixProvider.cs:23-59 | an action is registered exactly when all of these hold: the first DEMO002 finding names a `??`; its left operand is an identifier bound to a local; a declarator of that name exists; the first such declarator's type is nullable. A `??=` or `!` finding gets no action |
| `NullOperatorFix.SyntaxEditor.constructor` | DemoAnalyzers/CodeFixes/NullOperatorCodeFixProvider.cs:83 | a new editor holds the original root and no changes |
| `NullOperatorFix.SyntaxEditor.ReplaceNode` | DemoAnalyzers/CodeFixes/NullOperatorCodeFixProvider.cs:104-112 | appends one recorded replacement |
| `NullOperatorFix.SyntaxEditor.GetChangedRoot` | DemoAnalyzers/CodeFixes/NullOperatorCodeFixProvider.cs:114 | applies the recorded replacements in order; one whose node an earlier replacement removed, or replaced, fails |
| `NullOperatorFix.ApplyCompleteFix` | DemoAnalyzers/CodeFixes/NullOperatorCodeFixProvider.cs:75-116 | the editor-driven method computes `CompleteFix`: a null parent, a failed cast of the parent or of its type, or the two edits in order |
| `NullOperatorFix.TwoEdits` | DemoAnalyzers/CodeFixes/NullOperatorCodeFixProvider.cs:104-114 | two edits, the second not inside the first, are both applied in turn |
| `NullOperatorFix.DisjointEdits` | DemoAnalyzers/CodeFixes/NullOperatorCodeFixProvider.cs:104-114 | two edits at disjoint positions both land, nothing else changes, and the nodes above either edit keep their own tokens |
| `NullOperatorFix.CompleteFixDisjoint` | DemoAnalyzers/CodeFixes/NullOperatorCodeFixProvider.cs:75-116 | the usual case: the declaration becomes `T x = ...` with `T?` made `T`; the declarator keeps its name and is no longer nullable; the `??` becomes its left operand, on which the rule is silent; nothing else changes, and the nodes above the declaration and the `??` keep their own tokens |
| `NullOperatorFix.CompleteFixCoalesceInDeclaration` | DemoAnalyzers/CodeFixes/NullOperatorCodeFixProvider.cs:104-114 | a `??` inside the rewritten declaration gets no edit of its own, so the editor fails |
| `NullOperatorFix.CompleteFixDeclarationInCoalesce` | DemoAnalyzers/CodeFixes/NullOperatorCodeFixProvider.cs:104-114 | a declaration inside the `??` is discarded when the `??` becomes its left operand |
| `NullOperatorFix.CompleteFixDropsOtherDeclarators` | DemoAnalyzers/CodeFixes/NullOperatorCodeFixProvider.cs:100-102 | as written, every other declarator of the rewritten declaration is gone afterwards |
| `NullOperatorFix.CorrectedDeclaration` | DemoAnalyzers/CodeFixes/NullOperatorCodeFixProvider.cs:100-102 | the corrected declaration has the element type and the same number of declarators; the fixed one is rewritten in its own place and the others are unchanged |
| `NullOperatorFix.CorrectedFixKeepsOtherDeclarators` | DemoAnalyzers/CodeFixes/NullOperatorCodeFixProvider.cs:97-114 | with the correction the type loses its `?`; the fixed declarator is rewritten where it stood; every other declarator stays at its position; the `??` becomes its left operand; nothing else changes, and the nodes above the declaration and the `??` keep their own tokens |
| `StructuredLoggingAnalyzer.FirstQualifying` | DemoAnalyzers/Analyzers/StructuredLoggingAnalyzer.cs:53-66 | the first argument that is a string-typed interpolated string; none exactly when no argument is |
| `StructuredLoggingAnalyzer.InvocationOutcome` | DemoAnalyzers/Analyzers/StructuredLoggingAnalyzer.cs:36-67 | never throws; reports exactly for a member call whose name starts with `Log`, that is a method symbol, and that has a qualifying argument; the finding is at the first qualifying argument |
| `StructuredLoggingAnalyzer.AnalyzeInvocation` | DemoAnalyzers/Analyzers/StructuredLoggingAnalyzer.cs:36-67 | the guards followed by the argument loop with its early `break`; it reports the first qualifying argument and equals `InvocationOutcome` |
| `StructuredLoggingAnalyzer.Analyze` | DemoAnalyzers/Analyzers/StructuredLoggingAnalyzer.cs:33 | only invocations are looked at |
| `StructuredLoggingAnalyzer.PlainCallNeverFires` | DemoAnalyzers/Analyzers/StructuredLoggingAnalyzer.cs:41-42 | a callee that is not a member access is silent, whatever the arguments |
| `StructuredLoggingAnalyzer.ArgumentAt` | DemoAnalyzers/Analyzers/StructuredLoggingAnalyzer.cs:53-63 | argument k of the call sits at the position the finding names |
| `StructuredLoggingFix.Segment` | DemoAnalyzers/CodeFixes/StructuredLoggingCodeFixProvider.cs:55 | a text segment gives its text; a hole gives `{name}` for an identifier, and any other expression is a failed cast |
| `StructuredLoggingFix.Template` | DemoAnalyzers/CodeFixes/StructuredLoggingCodeFixProvider.cs:52-56 | the join succeeds exactly when every hole holds an identifier; otherwise it is a failed cast (its value, segment by segment, is `StructuredLoggingFix.TemplateOfOne` and `StructuredLoggingFix.TemplateAppend`) |
| `StructuredLoggingFix.TemplateOfOne` | DemoAnalyzers/CodeFixes/StructuredLoggingCodeFixProvider.cs:52-56 | the template of a single part is that part's segment: its text, or `{name}` for an identifier hole |
| `StructuredLoggingFix.TemplateAppend` | DemoAnalyzers/CodeFixes/StructuredLoggingCodeFixProvider.cs:52-56 | `string.Join("", ...)` is concatenation: the template of two runs of contents is the first run's template followed by the second's |
| `StructuredLoggingFix.TemplateIgnoresAlignmentAndFormat` | DemoAnalyzers/CodeFixes/StructuredLoggingCodeFixProvider.cs:55 | alignment and format clauses do not change the template |
| `StructuredLoggingFix.TemplateNamesTheHoles` | DemoAnalyzers/CodeFixes/StructuredLoggingCodeFixProvider.cs:52-60 | without braces in the text, the template's placeholders, read back, are the holes' identifiers in order, which are exactly the arguments the fix appends |
| `StructuredLoggingFix.Convert` | DemoAnalyzers/CodeFixes/StructuredLoggingCodeFixProvider.cs:45-69 | no enclosing invocation throws; a non-identifier hole is a failed cast; an empty argument list throws; otherwise argument 0 becomes the template, the other arguments keep their places, the holes' expressions are appended, and nothing outside the invocation changes (that the nodes above it keep their own tokens is `StructuredLoggingFix.ConvertKeepsAncestors`) |
| `StructuredLoggingFix.ConvertKeepsAncestors` | DemoAnalyzers/CodeFixes/StructuredLoggingCodeFixProvider.cs:48-67 | when the rewrite succeeds, every node above the enclosing invocation keeps its own tokens |
| `StructuredLoggingFix.ConvertCorrected` | DemoAnalyzers/CodeFixes/StructuredLoggingCodeFixProvider.cs:45-69 | the corrected rewrite replaces the interpolated string's own argument by the template and appends the holes |
| `StructuredLoggingFix.ReportedArgument` | DemoAnalyzers/Analyzers/StructuredLoggingAnalyzer.cs:59-63 | every finding of the rule is on an interpolated-string argument of the reported call |
| `StructuredLoggingFix.FindingTargetsArgument` | DemoAnalyzers/CodeFixes/StructuredLoggingCodeFixProvider.cs:21-48 | for the rule's own finding, the fix targets the reported argument, and the invocation it rewrites is the reported call |
| `StructuredLoggingFix.CorrectedConvertsReportedArgument` | DemoAnalyzers/CodeFixes/StructuredLoggingCodeFixProvider.cs:59-60 | with the correction the reported argument becomes the template literal; the others stay and the holes are appended; nothing outside the call changes, and the nodes above it keep their own tokens |
| `StructuredLoggingFix.AsWrittenKeepsInterpolatedArgument` | DemoAnalyzers/CodeFixes/StructuredLoggingCodeFixProvider.cs:59 | as written, for a string at argument k > 0, argument 0 is overwritten by the template and the interpolated string stays in place |
| `StructuredLoggingFix.AgreeOnFirstArgument` | DemoAnalyzers/CodeFixes/StructuredLoggingCodeFixProvider.cs:59-60 | when the string is argument 0, the fix as written and the corrected one give the same tree |
| `RuleEngine.FindingCarriesRuleId` | DemoAnalyzers/Analyzers/MethodNamingConventionAnalyzer.cs:12-20 | every analyzer's finding carries that analyzer's id |
| `RuleEngine.Collect` | DemoAnalyzers/Analyzers/MethodNamingConventionAnalyzer.cs:25-31 | the findings of the callbacks at the visited positions are exactly what the analyzer reports at one of them |
| `RuleEngine.FindingsAreTheReports` | DemoAnalyzers/Analyzers/NullOperatorsAnalyzer.cs:29-39 | a run over a tree holds a finding exactly when some node of the tree reports it |
| `RuleEngine.OfferedTo` | DemoAnalyzers/CodeFixes/DateTimeUtcNowCodeFixProvider.cs:17 | a finding is offered to exactly the fixes whose fixable ids contain its id |
| `RuleEngine.SharedIdsRouteFindings` | DemoAnalyzers/CodeFixes/NullOperatorCodeFixProvider.cs:18-21 | naming and namespaced null findings go to the naming fix only; `DateTime.Now`, global null and logging findings go to all three DEMO002 fixes |
| `DemoProject.ProgramFindings` | DemoProject/Program.cs:9-19 | `calculator.addNumbers(5, 3)` and the declaration of `addNumbers` are reported by the naming rule; `DateTime.Now` is reported by its rule |
| `DemoProject.ProgramCallFixRenamesMain` | DemoProject/Program.cs:5-9 | the call's finding gets the action that renames `Main` |
| `DemoProject.RenamingMainChangesNothing` | DemoAnalyzers/CodeFixes/MethodNamingConventionCodeFixProvider.cs:56-69 | renaming `Main` gives the tree back unchanged |
| `DemoProject.ProgramCallFixCorrected` | DemoProject/Program.cs:9 | the corrected choice renames the call to `calculator.AddNumbers(5, 3)` |
| `DemoProject.ProgramNowFix` | DemoProject/Program.cs:12 | the `DateTime.Now` read becomes `DateTime.UtcNow` |
| `DemoProject.UserLoggedInTemplate` | DemoProject/Services/LoggingService.cs:30 | `$"User {userName} logged in"` gives the template `"User {userName} logged in"` and the argument `userName` |
| `DemoProject.LoggingServiceFindings` | DemoProject/Services/LoggingService.cs:24-30 | `LogValid`'s call is silent; `LogInvalid`'s call is reported on its argument |
| `DemoProject.LoggingServiceRoundTrip` | DemoProject/Services/LoggingService.cs:24-30 | the fix turns `LogInvalid`'s call into `LogValid`'s |
| `DemoProject.LevelFirstAsWritten` | DemoAnalyzers/CodeFixes/StructuredLoggingCodeFixProvider.cs:59-60 | for `logger.Log(LogLevel.Information, $"...")` the level is overwritten and the interpolated string kept |
| `DemoProject.LevelFirstCorrected` | DemoAnalyzers/CodeFixes/StructuredLoggingCodeFixProvider.cs:59-60 | corrected, the same call becomes `logger.Log(LogLevel.Information, "User {userName} logged in", userName)` |
| `DemoProject.NullableDeclaratorFound` | DemoAnalyzers/CodeFixes/NullOperatorCodeFixProvider.cs:61-67 | in `string? nullableThing; var x = nullableThing ?? "fallback";` the declarator found is `nullableThing`'s |
| `DemoProject.NullFixRegistered` | DemoAnalyzers/CodeFixes/NullOperatorCodeFixProvider.cs:23-59 | the `??` is reported, and its finding registers the fix for that declarator and that `??` |
| `DemoProject.NullFixApplied` | DemoAnalyzers/CodeFixes/NullOperatorCodeFixProvider.cs:75-116 | the fix gives `string nullableThing = string.Empty;` and `var x = nullableThing;`, on which the rule is silent |
| `DemoProject.CoalesceGetsUtcNowFix` | DemoAnalyzers/CodeFixes/DateTimeUtcNowCodeFixProvider.cs:17-43 | a DEMO002 `??` finding in `(a ?? b).Length` is offered the `DateTime.Now` fix, which replaces the whole expression by `DateTime.UtcNow` |
| `DemoProject.NestedCoalesceReportsBoth` | DemoAnalyzers/Analyzers/NullOperatorsAnalyzer.cs:36-48 | `a ?? b ?? c` yields one finding for each `??` |

## Left out

- Host plumbing is not modelled: `Initialize`, `ConfigureGeneratedCodeAnalysis`, `EnableConcurrentExecution`, the export attributes, `CodeAction` titles and equivalence keys, and `GetFixAllProvider` / the batch fixer. It only registers callbacks and options; the registered node kinds are modelled by each `Analyze`.
- Async document access and cancellation are not modelled; the root and the semantic-model answers are inputs.
- A fix re-reads the document root when it runs. If that root is null, the `DateTime.Now`, method-naming and structured-logging fixes return the document unchanged, while the null-operator fix throws `ArgumentNullException`. The model uses the registration-time root, which is non-null there, so neither path is modelled.
- The semantic model's internals are not modelled. `GetSymbolInfo` and `GetTypeInfo` become sets and a map keyed by position.
- Trivia is kept as an opaque value on tokens, and whole-node trivia is not modelled. This covers `WithTrailingTrivia` on the new type, `WithLeadingTrivia(Space)` on the new initializer, and `WithTriviaFrom` on the `??` operand. `Simplifier.Annotation` is left out as well. None of them changes the tree's shape.
- `FindToken` is modelled by its effect on the node kinds involved: a node location maps to the owner of the node's first token. Character spans are not modelled.
- `char.IsLower` and `char.ToUpper` are modelled on ASCII, because culture- and Unicode-sensitive case mapping is not modelled.
- `string.StartsWith` is modelled as an ordinal prefix test, not a culture-sensitive comparison.
- Escaping in `SyntaxFactory.Literal` is left out: the template literal holds the raw template text, and a text segment is its source text.
- Descriptor titles, categories and help links are left out, and so is the formatting of `{0}` into the message. A finding keeps its arguments.
- An exception thrown inside an analyzer callback is modelled as `Crashed`. The host's reporting of it is not modelled.
- Argument names, `ref`/`out` modifiers and generic names (`x.f<T>()`) are left out: an argument is its expression, and a member name is an identifier.
- `StructuredLoggingFix.Convert`: its own contract does not say that the nodes above the invocation keep their own tokens; `StructuredLoggingFix.ConvertKeepsAncestors` states it beside it, to keep the function's own proof obligations small.
- `NullOperatorFix.SyntaxEditor.ReplaceNode`: it requires the node to be in the original tree, where Roslyn's editor throws. Every call in the fix passes such a node.
- `Diagnostics.TokenParent`, `Diagnostics.FindNode`: a location outside the tree gives no token and no node. Roslyn's `FindToken` and `FindNode` throw `ArgumentOutOfRangeException` there instead. In a parsed tree a token's parent is never null, so the source's `tokenParent == null` guard and `tokenParent?.` access cannot fire. The model's "no action" for such a location stands in for that throw.
- `NullOperatorFix.RegisterFix`: `FindNode` resolves a span that two nodes share to the outermost one. For `M(s ?? "")` it returns the `ArgumentSyntax`, the `node is BinaryExpressionSyntax` test fails and no action is registered. The model treats an argument as its expression, so it registers the fix there.
- `NullOperatorFix.RegisterFix` attaches its action to all of the context's diagnostics. The model returns the action, not the diagnostics it is attached to.
- `DemoProject/Program.cs` and `DemoProject/Services/LoggingService.cs` are modelled only as the worked examples in `DemoProject`. `DemoProject.MainDecl` leaves out `var calculator = new Calculator();` (Program.cs:8). That statement reports nothing under any rule, so no finding or fix of the example depends on it.

## Findings

| source | as written | input that shows it | evidently intended | confidence | as-written member | corrected member |
|---|---|---|---|---|---|---|
| DemoAnalyzers/CodeFixes/MethodNamingConventionCodeFixProvider.cs:32-53 | the method-declaration branch is tried first, over the ancestors-and-self of the finding's token, so a call finding inside a method body yields an action that renames the enclosing method | `calculator.addNumbers(5, 3);` inside `Main` (DemoProject/Program.cs:9): the action renames `Main` to itself and the call stays lower case | rename the node the finding was reported on | high, not executed | `MethodNamingFix.AsWrittenLeavesCallUnfixed` | `MethodNamingFix.CorrectedFixResolvesFinding` |
| DemoAnalyzers/CodeFixes/StructuredLoggingCodeFixProvider.cs:59 | the template replaces `originalArguments[0]` whatever position the interpolated string has | `logger.Log(LogLevel.Information, $"User {userName} logged in")` becomes `logger.Log("User {userName} logged in", $"User {userName} logged in", userName)` | replace the interpolated string's own argument | high, not executed | `StructuredLoggingFix.AsWrittenKeepsInterpolatedArgument` | `StructuredLoggingFix.CorrectedConvertsReportedArgument` |
| DemoAnalyzers/CodeFixes/NullOperatorCodeFixProvider.cs:100-102 | the new declaration's variable list is only the rewritten declarator | `string? a = null, b = "x"; var y = a ?? "";` becomes `string a = null; var y = a;`, and `b` is gone | rewrite the declarator in place and keep the others | medium, not executed | `NullOperatorFix.CompleteFixDropsOtherDeclarators` | `NullOperatorFix.CorrectedFixKeepsOtherDeclarators` |
