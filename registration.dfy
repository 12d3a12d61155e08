/** What the fixes share when they register an action: the first diagnostic of
    the fix context, and the nearest node of a kind around the finding's first token. */
module Registration {
  import opened Wrappers
  import opened Syntax
  import opened Trees
  import opened Diagnostics

  /** `context.Diagnostics.First()`. */
  function First(diagnostics: seq<Finding>): (r: Result<Finding, Exception>)
    ensures r.Success? <==> |diagnostics| > 0
    ensures r.Success? ==> r.value == diagnostics[0]
    ensures r.Failure? ==> r.error == NoElements
  {
    if diagnostics == [] then Failure(NoElements) else Success(diagnostics[0])
  }

  /** The registration of the `DateTime.Now` and structured-logging fixes: no action
      without a root or without a token at the finding; otherwise the node of kind
      `k` nearest to that token, where `AncestorsAndSelf().OfType<K>().First()`
      throws when there is none. */
  function EnclosingTarget(root: Option<Node>, diagnostics: seq<Finding>, k: SyntaxKind): (r: Result<Option<Path>, Exception>)
    ensures root.None? ==> r == Success(None)
    ensures root.Some? && diagnostics == [] ==> r == Failure(NoElements)
    ensures root.Some? && diagnostics != [] ==>
              var tp := TokenParent(root.value, diagnostics[0].location);
              && (tp.None? ==> r == Success(None))
              && (tp.Some? ==>
                    && (r.Failure? <==> !SomeAncestorIs(root.value, tp.value, k))
                    && (r.Failure? ==> r.error == NoElements)
                    && (r.Success? ==>
                          && r.value.Some?
                          && r.value.value <= tp.value
                          && HasKind(root.value, r.value.value, k)
                          && forall j :: |r.value.value| < j <= |tp.value| ==> !HasKind(root.value, tp.value[..j], k)))
  {
    if root.None? then Success(None)
    else
      match First(diagnostics)
      case Failure(e) => Failure(e)
      case Success(diagnostic) =>
        match TokenParent(root.value, diagnostic.location)
        case None => Success(None)
        case Some(tokenParent) =>
          match Innermost(root.value, tokenParent, k)
          case None => Failure(NoElements)
          case Some(target) => Success(Some(target))
  }

  /** The registration's result once the token and the node of kind `k` are known. */
  lemma EnclosingTargetIs(root: Node, diagnostics: seq<Finding>, k: SyntaxKind, tp: Path, target: Path)
    requires diagnostics != [] && TokenParent(root, diagnostics[0].location) == Some(tp)
    requires Innermost(root, tp, k) == Some(target)
    ensures EnclosingTarget(Some(root), diagnostics, k) == Success(Some(target))
  {
    assert First(diagnostics) == Success(diagnostics[0]);
  }
}
