/** Findings, where they sit, and the answers of the host's semantic model. */
module Diagnostics {
  import opened Wrappers
  import opened Syntax
  import opened Trees

  datatype Severity = Hidden | Info | Warning | Error

  /** A rule's descriptor: its id, default severity and message template. */
  datatype Descriptor = Descriptor(id: string, severity: Severity, messageFormat: string)

  datatype TokenRole = IdentifierToken | OperatorToken

  /** Where a finding is reported: a whole node, or one token of a node
      (the node that owns the token is given). */
  datatype Location = NodeSpan(node: Path) | TokenSpan(owner: Path, role: TokenRole)

  /** A reported finding; `args` fill the message template's `{0}`, `{1}`, ... */
  datatype Finding = Finding(id: string, severity: Severity, location: Location, args: seq<string>)

  function Report(d: Descriptor, loc: Location, args: seq<string>): (f: Finding)
    ensures f.id == d.id && f.severity == d.severity && f.location == loc && f.args == args
  {
    Finding(d.id, d.severity, loc, args)
  }

  /** The exceptions the modelled code can throw. */
  datatype Exception =
    | IndexOutOfRange   // `s[0]` on an empty string, `list[0]` on an empty list
    | NoElements        // LINQ `First()` finds nothing
    | InvalidCast       // a cast to a syntax type fails
    | NullReference     // a member of a null reference is used
    | NodeNotInTree     // an editor's change names a node that an earlier change removed

  /** What one analyzer callback does for one node. */
  datatype Outcome = Silent | Reported(finding: Finding) | Crashed(reason: Exception)

  /** The answers the analyzers and fixes ask the host's semantic model for,
      keyed by the position of the node asked about. */
  datatype SemanticModel = SemanticModel(
    methodSymbols: set<Path>,      // invocations whose symbol is an `IMethodSymbol`
    stringTyped: set<Path>,        // expressions whose type is `System.String`
    locals: map<Path, string>)     // identifiers bound to an `ILocalSymbol`, with that local's name

  function LocationPath(loc: Location): Path {
    match loc
    case NodeSpan(p) => p
    case TokenSpan(p, _) => p
  }

  /** The position, below `n`, of the node that owns `n`'s first token. */
  function LeadingTokenOwner(n: Node): Path {
    match n
    case MemberAccess(e, _) => [0] + LeadingTokenOwner(e)
    case Invocation(c, _) => [0] + LeadingTokenOwner(c)
    case Coalesce(l, _, _) => [0] + LeadingTokenOwner(l)
    case CoalesceAssign(l, _, _) => [0] + LeadingTokenOwner(l)
    case SuppressNullable(e, _) => [0] + LeadingTokenOwner(e)
    case NullableType(e) => [0] + LeadingTokenOwner(e)
    case VarDecl(t, _) => [0] + LeadingTokenOwner(t)
    case Other(_, owns, cs) =>
      if !owns && cs != [] then [0] + LeadingTokenOwner(cs[0]) else []
    case _ => []
  }

  /** The owner of a node's first token is a node inside it. */
  lemma {:induction false} LeadingTokenOwnerValid(n: Node)
    ensures ValidPath(n, LeadingTokenOwner(n))
  {
    var p := LeadingTokenOwner(n);
    if p != [] {
      var c := Children(n)[0];
      LeadingTokenOwnerValid(c);
      assert p == [0] + LeadingTokenOwner(c) && p[1..] == LeadingTokenOwner(c);
    }
  }

  /** `root.FindToken(location.SourceSpan.Start).Parent`: for a token location the
      token's owner; for a node location the owner of the node's first token;
      none when the location is not in the tree. */
  function TokenParent(root: Node, loc: Location): (r: Option<Path>)
    ensures r.Some? ==> ValidPath(root, r.value) && LocationPath(loc) <= r.value
    ensures r.None? <==> !ValidPath(root, LocationPath(loc))
    ensures loc.TokenSpan? && r.Some? ==> r.value == loc.owner
  {
    var p := LocationPath(loc);
    match At(root, p)
    case None => None
    case Some(n) =>
      match loc
      case TokenSpan(_, _) => Some(p)
      case NodeSpan(_) =>
        var q := LeadingTokenOwner(n);
        LeadingTokenOwnerValid(n);
        AtConcat(root, p, q);
        Some(p + q)
  }

  /** Looking up a position below a position. */
  lemma {:induction false} AtConcat(root: Node, p: Path, q: Path)
    requires ValidPath(root, p)
    ensures At(root, p + q) == At(At(root, p).value, q)
    decreases |p|
  {
    if p == [] {
      assert p + q == q;
    } else {
      assert (p + q)[0] == p[0] && (p + q)[1..] == p[1..] + q;
      AtConcat(Children(root)[p[0]], p[1..], q);
    }
  }

  /** The `j`-th child of the node at `p` sits at `p + [j]`. */
  lemma ChildAt(root: Node, p: Path, j: nat)
    requires At(root, p).Some? && j < |Children(At(root, p).value)|
    ensures At(root, p + [j]) == Some(Children(At(root, p).value)[j])
  {
    AtConcat(root, p, [j]);
    assert [j][1..] == [];
  }

  /** `root.FindNode(location.SourceSpan)`: the node the location names. */
  function FindNode(root: Node, loc: Location): (r: Option<Path>)
    ensures r.Some? <==> ValidPath(root, LocationPath(loc))
    ensures r.Some? ==> r.value == LocationPath(loc)
  {
    if ValidPath(root, LocationPath(loc)) then Some(LocationPath(loc)) else None
  }
}
