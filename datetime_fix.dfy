/** The fix for DEMO002 that replaces `DateTime.Now` with `DateTime.UtcNow`. It is
    offered for every DEMO002 finding, whichever rule reported it. */
module DateTimeFix {
  import opened Wrappers
  import opened Syntax
  import opened Trees
  import opened Diagnostics
  import opened Registration
  import DateTimeAnalyzer
  import NullOperatorsAnalyzer

  const FixableId := DateTimeAnalyzer.Rule.id

  /** `DateTime.UtcNow` as the fix builds it, without trivia. */
  const UtcNow := MemberAccess(IdentifierName(Tok("DateTime")), Tok("UtcNow"))

  /** The action registered for a finding: the member access to replace
      (the nearest member access at or around the finding's first token). */
  function FixTarget(root: Option<Node>, diagnostics: seq<Finding>): Result<Option<Path>, Exception> {
    EnclosingTarget(root, diagnostics, MemberAccessKind)
  }

  /** `ReplaceWithUtcNowAsync`: the member access becomes `DateTime.UtcNow`, nothing
      else in the tree changes (the nodes beside it are the same, the nodes above it
      keep their own tokens); a node no longer in the tree changes nothing. */
  function ReplaceWithUtcNow(root: Node, memberAccess: Path): (r: Node)
    ensures ValidPath(root, memberAccess) ==> At(r, memberAccess) == Some(UtcNow)
    ensures !ValidPath(root, memberAccess) ==> r == root
    ensures forall q :: Disjoint(memberAccess, q) ==> At(r, q) == At(root, q)
    ensures AncestorsKept(root, r, memberAccess)
  {
    ReplaceAtCases(root, memberAccess, UtcNow);
    ReplaceAtFrameAll(root, memberAccess, UtcNow);
    ReplaceAtKeepsAncestors(root, memberAccess, UtcNow);
    ReplaceAt(root, memberAccess, UtcNow)
  }

  /** Fixing the rule's own finding replaces exactly the reported `DateTime.Now`,
      after which the rule is silent there. */
  lemma FixResolvesFinding(root: Node, at: Path, f: Finding)
    requires At(root, at).Some? && DateTimeAnalyzer.Analyze(At(root, at).value, at) == Reported(f)
    ensures FixTarget(Some(root), [f]) == Success(Some(at))
    ensures At(ReplaceWithUtcNow(root, at), at) == Some(UtcNow)
    ensures DateTimeAnalyzer.Analyze(At(ReplaceWithUtcNow(root, at), at).value, at) == Silent
  {
    var n := At(root, at).value;
    var tp := at + [0];
    assert f.location == NodeSpan(at);
    assert LeadingTokenOwner(n) == [0];
    AtConcat(root, at, [0]);
    assert TokenParent(root, f.location) == Some(tp);
    assert tp[..|at|] == at;
    forall j | |at| < j <= |tp| ensures !HasKind(root, tp[..j], MemberAccessKind) {
      assert tp[..j] == tp;
    }
    InnermostIs(root, tp, at, MemberAccessKind);
    EnclosingTargetIs(root, [f], MemberAccessKind, tp, at);
  }

  /** The global null-operator rule shares the id DEMO002, so its `??` findings get this
      fix too: with no member access around the `??` the registration throws, and
      otherwise the nearest enclosing member access is replaced by `DateTime.UtcNow`. */
  lemma CoalesceFindingGetsThisFix(root: Node, at: Path, f: Finding)
    requires At(root, at).Some? && At(root, at).value.Coalesce?
    requires NullOperatorsAnalyzer.Analyze(NullOperatorsAnalyzer.GlobalRule, At(root, at).value, at) == Reported(f)
    ensures f.id == FixableId
    ensures FixTarget(Some(root), [f]).Failure? <==> !SomeAncestorIs(root, at, MemberAccessKind)
    ensures FixTarget(Some(root), [f]).Success? ==>
              var target := FixTarget(Some(root), [f]).value;
              && target.Some? && target.value <= at && HasKind(root, target.value, MemberAccessKind)
              && At(ReplaceWithUtcNow(root, target.value), target.value) == Some(UtcNow)
  {
    assert TokenParent(root, f.location) == Some(at);
  }
}
