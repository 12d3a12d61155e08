/** The fix for DEMO001: rename a method declaration or a member call to PascalCase. */
module MethodNamingFix {
  import opened Wrappers
  import opened Syntax
  import opened Trees
  import opened Diagnostics
  import opened Text
  import opened Registration
  import MethodNamingAnalyzer

  const FixableId := MethodNamingAnalyzer.Rule.id

  /** The fix registered for a finding: which node it renames. */
  datatype NamingFix = RenameMethodFix(decl: Path) | RenameInvocationFix(invocation: Path)

  /** `RegisterCodeFixesAsync` as written: from the owner of the first finding's
      first token, the enclosing method declaration wins over the enclosing invocation. */
  function ChooseFix(root: Option<Node>, diagnostics: seq<Finding>): (r: Result<Option<NamingFix>, Exception>)
    ensures root.None? ==> r == Success(None)
    ensures root.Some? ==> (r.Failure? <==> diagnostics == []) && (r.Failure? ==> r.error == NoElements)
    ensures root.Some? && diagnostics != [] && TokenParent(root.value, diagnostics[0].location).None? ==> r == Success(None)
    ensures root.Some? && diagnostics != [] && TokenParent(root.value, diagnostics[0].location).Some? ==>
              var tp := TokenParent(root.value, diagnostics[0].location).value;
              && r.Success?
              && (SomeAncestorIs(root.value, tp, MethodDeclarationKind) <==> r.value.Some? && r.value.value.RenameMethodFix?)
              && (r.value.Some? && r.value.value.RenameMethodFix? ==>
                    Innermost(root.value, tp, MethodDeclarationKind) == Some(r.value.value.decl))
              && (r.value.Some? && r.value.value.RenameInvocationFix? ==>
                    Innermost(root.value, tp, InvocationKind) == Some(r.value.value.invocation))
              && (r.value.None? <==>
                    !SomeAncestorIs(root.value, tp, MethodDeclarationKind) && !SomeAncestorIs(root.value, tp, InvocationKind))
  {
    if root.None? then Success(None)
    else
      match First(diagnostics)
      case Failure(e) => Failure(e)
      case Success(diagnostic) =>
        match TokenParent(root.value, diagnostic.location)
        case None => Success(None)
        case Some(tokenParent) =>
          var methodDeclaration := Innermost(root.value, tokenParent, MethodDeclarationKind);
          var invocationExpression := Innermost(root.value, tokenParent, InvocationKind);
          if methodDeclaration.Some? then Success(Some(RenameMethodFix(methodDeclaration.value)))
          else if invocationExpression.Some? then Success(Some(RenameInvocationFix(invocationExpression.value)))
          else Success(None)
  }

  /** `RenameMethodAsync`: the declaration's identifier token gets the PascalCase
      text and keeps its trivia; nothing else in the tree changes. */
  function RenameMethodDeclaration(root: Node, decl: Path): (r: Result<Node, Exception>)
    requires HasKind(root, decl, MethodDeclarationKind)
    ensures var d := At(root, decl).value;
            && (r.Failure? <==> d.id.text == "")
            && (r.Failure? ==> r.error == IndexOutOfRange)
            && (r.Success? ==> At(r.value, decl) == Some(MethodDecl(Token(PascalCase(d.id.text), d.id.trivia), d.body)))
    ensures r.Success? ==> forall q :: Disjoint(decl, q) ==> At(r.value, q) == At(root, q)
    ensures r.Success? ==> AncestorsKept(root, r.value, decl)
  {
    var methodDeclaration := At(root, decl).value;
    var identifierToken := methodDeclaration.id;
    if identifierToken.text == "" then Failure(IndexOutOfRange)
    else
      var newIdentifier := Token(PascalCase(identifierToken.text), identifierToken.trivia);
      var newDeclaration := MethodDecl(newIdentifier, methodDeclaration.body);
      ReplaceAtTarget(root, decl, newDeclaration);
      ReplaceAtFrameAll(root, decl, newDeclaration);
      ReplaceAtKeepsAncestors(root, decl, newDeclaration);
      Success(ReplaceAt(root, decl, newDeclaration))
  }

  /** `RenameInvocationAsync`: only the member name of the callee changes (it keeps
      its trivia); receiver, arguments and the rest of the tree stay. A callee that
      is not a member access leaves the tree as it was. */
  function RenameInvocationExpression(root: Node, invocation: Path): (r: Result<Node, Exception>)
    requires HasKind(root, invocation, InvocationKind)
    ensures var inv := At(root, invocation).value;
            && (!inv.callee.MemberAccess? ==> r == Success(root))
            && (inv.callee.MemberAccess? ==>
                  && (r.Failure? <==> inv.callee.name.text == "")
                  && (r.Failure? ==> r.error == IndexOutOfRange)
                  && (r.Success? ==>
                        At(r.value, invocation) ==
                          Some(Invocation(MemberAccess(inv.callee.expr,
                                                       Token(PascalCase(inv.callee.name.text), inv.callee.name.trivia)),
                                          inv.args))))
    ensures r.Success? ==> forall q :: Disjoint(invocation, q) ==> At(r.value, q) == At(root, q)
    ensures r.Success? ==> AncestorsKept(root, r.value, invocation)
  {
    var invocationExpression := At(root, invocation).value;
    match invocationExpression.callee
    case MemberAccess(receiver, name) =>
      if name.text == "" then Failure(IndexOutOfRange)
      else
        var newIdentifier := Token(PascalCase(name.text), name.trivia);
        var newInvocation := Invocation(MemberAccess(receiver, newIdentifier), invocationExpression.args);
        ReplaceAtTarget(root, invocation, newInvocation);
        ReplaceAtFrameAll(root, invocation, newInvocation);
        ReplaceAtKeepsAncestors(root, invocation, newInvocation);
        Success(ReplaceAt(root, invocation, newInvocation))
    case _ => Success(root)
  }

  /** Runs the registered fix. */
  function Apply(root: Node, fix: NamingFix): Result<Node, Exception>
    requires fix.RenameMethodFix? ==> HasKind(root, fix.decl, MethodDeclarationKind)
    requires fix.RenameInvocationFix? ==> HasKind(root, fix.invocation, InvocationKind)
  {
    match fix
    case RenameMethodFix(d) => RenameMethodDeclaration(root, d)
    case RenameInvocationFix(i) => RenameInvocationExpression(root, i)
  }

  /** The fix as evidently intended: rename the node the finding was reported on. */
  function ChooseFixCorrected(root: Option<Node>, diagnostics: seq<Finding>): (r: Result<Option<NamingFix>, Exception>)
    ensures root.Some? ==> (r.Failure? <==> diagnostics == [])
    ensures r.Success? && r.value.Some? ==> root.Some? && diagnostics != []
    ensures r.Success? && r.value.Some? && r.value.value.RenameMethodFix? ==>
              && r.value.value.decl == LocationPath(diagnostics[0].location)
              && HasKind(root.value, r.value.value.decl, MethodDeclarationKind)
    ensures r.Success? && r.value.Some? && r.value.value.RenameInvocationFix? ==>
              && r.value.value.invocation == LocationPath(diagnostics[0].location)
              && HasKind(root.value, r.value.value.invocation, InvocationKind)
  {
    if root.None? then Success(None)
    else
      match First(diagnostics)
      case Failure(e) => Failure(e)
      case Success(diagnostic) =>
        match FindNode(root.value, diagnostic.location)
        case None => Success(None)
        case Some(p) =>
          if HasKind(root.value, p, MethodDeclarationKind) then Success(Some(RenameMethodFix(p)))
          else if HasKind(root.value, p, InvocationKind) then Success(Some(RenameInvocationFix(p)))
          else Success(None)
  }

  /** With the corrected choice, fixing any naming finding renames exactly the
      reported node, after which the rule no longer fires there. */
  lemma CorrectedFixResolvesFinding(root: Node, p: Path, f: Finding)
    requires At(root, p).Some? && MethodNamingAnalyzer.Analyze(At(root, p).value, p) == Reported(f)
    ensures ChooseFixCorrected(Some(root), [f]).Success? && ChooseFixCorrected(Some(root), [f]).value.Some?
    ensures var fix := ChooseFixCorrected(Some(root), [f]).value.value;
            && (fix == RenameMethodFix(p) || fix == RenameInvocationFix(p))
            && Apply(root, fix).Success?
            && At(Apply(root, fix).value, p).Some?
            && MethodNamingAnalyzer.Analyze(At(Apply(root, fix).value, p).value, p) == Silent
            && (forall q :: Disjoint(p, q) ==> At(Apply(root, fix).value, q) == At(root, q))
            && AncestorsKept(root, Apply(root, fix).value, p)
  {
    var n := At(root, p).value;
    assert LocationPath(f.location) == p;
    if n.MethodDecl? {
      assert ChooseFixCorrected(Some(root), [f]) == Success(Some(RenameMethodFix(p)));
    } else {
      assert n.Invocation?;
      assert ChooseFixCorrected(Some(root), [f]) == Success(Some(RenameInvocationFix(p)));
    }
  }

  /** Replacing a node by one with the same children leaves everything below it as it was. */
  lemma {:induction false} SameChildrenBelow(root: Node, m: Path, replacement: Node, p: Path)
    requires ValidPath(root, m) && m < p
    requires Children(replacement) == Children(At(root, m).value)
    ensures At(ReplaceAt(root, m, replacement), p) == At(root, p)
  {
    var s := p[|m|..];
    assert p == m + s;
    ReplaceAtTarget(root, m, replacement);
    ReplaceAtAncestorValid(root, m, replacement, m);
    AtConcat(root, m, s);
    AtConcat(ReplaceAt(root, m, replacement), m, s);
  }

  /** For a call `x.f(...)` reported at `p`, the token search starts at `x`, and only
      method declarations strictly above the call can enclose it. */
  lemma {:induction false} CallTokenParent(root: Node, p: Path, d: Path)
    requires At(root, p).Some? && At(root, p).value.Invocation?
    requires At(root, p).value.callee.MemberAccess? && At(root, p).value.callee.expr.IdentifierName?
    requires d < p && HasKind(root, d, MethodDeclarationKind)
    ensures TokenParent(root, NodeSpan(p)) == Some(p + [0, 0])
    ensures Innermost(root, p + [0, 0], MethodDeclarationKind).Some?
    ensures Innermost(root, p + [0, 0], MethodDeclarationKind).value < p
  {
    var tp := p + [0, 0];
    CallTokenOwner(root, p);
    assert tp[..|d|] == d && HasKind(root, tp[..|d|], MethodDeclarationKind);
    forall j | |p| <= j <= |tp| ensures !HasKind(root, tp[..j], MethodDeclarationKind) {
      if j == |p| {
        assert tp[..j] == p;
      } else if j == |p| + 1 {
        assert tp[..j] == p + [0];
      } else {
        assert tp[..j] == tp;
      }
    }
    InnermostStrictlyAbove(root, tp, p, MethodDeclarationKind);
  }

  /** The token search for a call `x.f(...)` starts at `x`, two levels down. */
  lemma CallTokenOwner(root: Node, p: Path)
    requires At(root, p).Some? && At(root, p).value.Invocation?
    requires At(root, p).value.callee.MemberAccess? && At(root, p).value.callee.expr.IdentifierName?
    ensures TokenParent(root, NodeSpan(p)) == Some(p + [0, 0])
    ensures At(root, p + [0]) == Some(At(root, p).value.callee)
    ensures At(root, p + [0, 0]) == Some(At(root, p).value.callee.expr)
  {
    var inv := At(root, p).value;
    var callee := inv.callee;
    assert LeadingTokenOwner(callee.expr) == [];
    assert LeadingTokenOwner(callee) == [0] + [] == [0];
    assert LeadingTokenOwner(inv) == [0] + [0] == [0, 0];
    assert [0, 0][1..] == [0] && [0][1..] == [];
    assert At(inv, [0]) == Some(callee);
    assert At(inv, [0, 0]) == At(callee, [0]) == Some(callee.expr);
    AtConcat(root, p, [0]);
    AtConcat(root, p, [0, 0]);
  }

  /** The fix as written, for a lower-case call `x.f(...)` inside a method body: the
      registered action renames the enclosing method declaration, which leaves the call
      as it was, and the rule fires on it again with the same finding. */
  lemma AsWrittenLeavesCallUnfixed(root: Node, p: Path, d: Path, f: Finding)
    requires At(root, p).Some? && At(root, p).value.Invocation?
    requires At(root, p).value.callee.MemberAccess? && At(root, p).value.callee.expr.IdentifierName?
    requires MethodNamingAnalyzer.Analyze(At(root, p).value, p) == Reported(f)
    requires d < p && HasKind(root, d, MethodDeclarationKind)
    ensures ChooseFix(Some(root), [f]).Success? && ChooseFix(Some(root), [f]).value.Some?
    ensures var fix := ChooseFix(Some(root), [f]).value.value;
            && fix.RenameMethodFix? && fix.decl < p
            && (Apply(root, fix).Success? ==>
                  && At(Apply(root, fix).value, p) == At(root, p)
                  && MethodNamingAnalyzer.Analyze(At(Apply(root, fix).value, p).value, p) == Reported(f))
  {
    var m := AsWrittenChoice(root, p, d, f);
    RenameLeavesBelow(root, m, p);
  }

  /** The action chosen for the call's finding renames a method declaration above the call. */
  lemma AsWrittenChoice(root: Node, p: Path, d: Path, f: Finding) returns (m: Path)
    requires At(root, p).Some? && At(root, p).value.Invocation?
    requires At(root, p).value.callee.MemberAccess? && At(root, p).value.callee.expr.IdentifierName?
    requires MethodNamingAnalyzer.Analyze(At(root, p).value, p) == Reported(f)
    requires d < p && HasKind(root, d, MethodDeclarationKind)
    ensures ChooseFix(Some(root), [f]) == Success(Some(RenameMethodFix(m)))
    ensures m < p && HasKind(root, m, MethodDeclarationKind)
  {
    assert f.location == NodeSpan(p);
    CallTokenParent(root, p, d);
    var tp := p + [0, 0];
    m := Innermost(root, tp, MethodDeclarationKind).value;
    assert First([f]) == Success(f);
    assert TokenParent(root, f.location) == Some(tp);
  }

  /** Renaming a method declaration leaves every node below it as it was. */
  lemma RenameLeavesBelow(root: Node, m: Path, p: Path)
    requires m < p && HasKind(root, m, MethodDeclarationKind)
    ensures Apply(root, RenameMethodFix(m)).Success? ==> At(Apply(root, RenameMethodFix(m)).value, p) == At(root, p)
  {
    var decl := At(root, m).value;
    if decl.id.text != "" {
      var renamed := MethodDecl(Token(PascalCase(decl.id.text), decl.id.trivia), decl.body);
      assert RenameMethodDeclaration(root, m) == Success(ReplaceAt(root, m, renamed));
      assert Children(renamed) == Children(decl);
      SameChildrenBelow(root, m, renamed, p);
    }
  }
}
