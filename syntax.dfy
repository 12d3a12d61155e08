/** The part of the C# syntax tree the analyzers and code fixes inspect.
    Nodes are immutable values; an edit builds a new tree. */
module Syntax {
  import opened Wrappers

  /** Whitespace and comments around a token; copied, never inspected. */
  datatype Trivia = Trivia(leading: string, trailing: string)

  const NoTrivia := Trivia("", "")

  /** A token: its source text and its trivia. */
  datatype Token = Token(text: string, trivia: Trivia)

  function Tok(text: string): Token { Token(text, NoTrivia) }

  /** The two kinds of interpolated-string content. */
  datatype Content =
    | Text(text: string)                                               // the segment's source text
    | Hole(expr: Node, alignment: Option<string>, format: Option<string>)  // `{expr,alignment:format}`

  datatype Node =
    | IdentifierName(id: Token)                              // `x`
    | MemberAccess(expr: Node, name: Token)                  // `expr.name`
    | Invocation(callee: Node, args: seq<Node>)              // `callee(args)`, each argument by its expression
    | Coalesce(left: Node, op: Token, right: Node)           // `left ?? right`, a binary expression
    | CoalesceAssign(left: Node, op: Token, right: Node)     // `left ??= right`, an assignment expression
    | SuppressNullable(operand: Node, op: Token)             // `operand!`, a postfix unary expression
    | InterpolatedString(contents: seq<Content>)             // `$"..."`
    | StringLiteral(value: string)                           // `"..."`
    | DefaultLiteral                                         // `default`
    | PredefinedType(keyword: Token)                         // `string`, `int`, ...
    | NullableType(elem: Node)                               // `elem?`
    | MethodDecl(id: Token, body: seq<Node>)                 // a method declaration
    | VarDecl(vtype: Node, vars: seq<Node>)                  // `vtype a = ..., b` (a variable declaration)
    | Declarator(id: Token, init: Option<Node>)              // `a = init` (a variable declarator)
    | Other(kind: string, ownsFirstToken: bool, children: seq<Node>)
      // any other node; `ownsFirstToken` is false when its first token belongs to its first child

  /** The kinds the fixes look for with `OfType<...>()`. */
  datatype SyntaxKind =
    MethodDeclarationKind | InvocationKind | MemberAccessKind | InterpolatedStringKind

  predicate IsOfKind(n: Node, k: SyntaxKind) {
    match k
    case MethodDeclarationKind => n.MethodDecl?
    case InvocationKind => n.Invocation?
    case MemberAccessKind => n.MemberAccess?
    case InterpolatedStringKind => n.InterpolatedString?
  }

  /** The expressions inside the holes of an interpolated string, in source order. */
  function HoleExprs(cs: seq<Content>): (es: seq<Node>)
    ensures |es| <= |cs|
    decreases |cs|
  {
    if cs == [] then []
    else (if cs[0].Hole? then [cs[0].expr] else []) + HoleExprs(cs[1..])
  }

  /** Replaces the expression of the `i`-th hole and keeps everything else. */
  function WithHoleExpr(cs: seq<Content>, i: nat, e: Node): (r: seq<Content>)
    requires i < |HoleExprs(cs)|
    ensures |r| == |cs|
    ensures HoleExprs(r) == HoleExprs(cs)[i := e]
    decreases |cs|
  {
    if cs[0].Hole? then
      if i == 0 then [cs[0].(expr := e)] + cs[1..]
      else [cs[0]] + WithHoleExpr(cs[1..], i - 1, e)
    else [cs[0]] + WithHoleExpr(cs[1..], i, e)
  }

  /** The child nodes, in document order. */
  function Children(n: Node): seq<Node> {
    match n
    case IdentifierName(_) => []
    case MemberAccess(e, _) => [e]
    case Invocation(c, args) => [c] + args
    case Coalesce(l, _, r) => [l, r]
    case CoalesceAssign(l, _, r) => [l, r]
    case SuppressNullable(e, _) => [e]
    case InterpolatedString(cs) => HoleExprs(cs)
    case StringLiteral(_) => []
    case DefaultLiteral => []
    case PredefinedType(_) => []
    case NullableType(e) => [e]
    case MethodDecl(_, body) => body
    case VarDecl(t, vs) => [t] + vs
    case Declarator(_, init) => if init.Some? then [init.value] else []
    case Other(_, _, cs) => cs
  }

  /** `n` with its `i`-th child replaced by `c`: the node's own tokens and its other children stay. */
  function WithChild(n: Node, i: nat, c: Node): (r: Node)
    requires i < |Children(n)|
    ensures Children(r) == Children(n)[i := c]
    ensures forall k :: IsOfKind(r, k) == IsOfKind(n, k)
    ensures Skeleton(r) == Skeleton(n)
  {
    match n
    case MemberAccess(_, t) => MemberAccess(c, t)
    case Invocation(callee, args) =>
      UpdateAfterHead(callee, args, i, c);
      if i == 0 then Invocation(c, args) else Invocation(callee, args[i - 1 := c])
    case Coalesce(l, op, r) => if i == 0 then Coalesce(c, op, r) else Coalesce(l, op, c)
    case CoalesceAssign(l, op, r) => if i == 0 then CoalesceAssign(c, op, r) else CoalesceAssign(l, op, c)
    case SuppressNullable(_, op) => SuppressNullable(c, op)
    case InterpolatedString(cs) =>
      WithHoleExprKeepsText(cs, i, c);
      InterpolatedString(WithHoleExpr(cs, i, c))
    case NullableType(_) => NullableType(c)
    case MethodDecl(id, body) => MethodDecl(id, body[i := c])
    case VarDecl(t, vs) =>
      UpdateAfterHead(t, vs, i, c);
      if i == 0 then VarDecl(c, vs) else VarDecl(t, vs[i - 1 := c])
    case Declarator(id, _) => Declarator(id, Some(c))
    case Other(k, o, cs) => Other(k, o, cs[i := c])
  }

  /** Updating `[h] + s` at `i`: the head itself, or `s` at `i - 1`. */
  lemma UpdateAfterHead(h: Node, s: seq<Node>, i: nat, c: Node)
    requires i <= |s|
    ensures i == 0 ==> ([h] + s)[i := c] == [c] + s
    ensures i > 0 ==> ([h] + s)[i := c] == [h] + s[i - 1 := c]
  {
    if i > 0 {
      var a := [h] + s[i - 1 := c];
      var b := ([h] + s)[i := c];
      assert |a| == |b| && forall j :: 0 <= j < |a| ==> a[j] == b[j];
    }
  }

  /** The node's own data: its constructor and tokens, each child replaced by `default`.
      Rebuilding a node around a new child keeps it. */
  function Skeleton(n: Node): Node {
    match n
    case MemberAccess(_, t) => MemberAccess(DefaultLiteral, t)
    case Invocation(_, args) => Invocation(DefaultLiteral, Blanks(|args|))
    case Coalesce(_, op, _) => Coalesce(DefaultLiteral, op, DefaultLiteral)
    case CoalesceAssign(_, op, _) => CoalesceAssign(DefaultLiteral, op, DefaultLiteral)
    case SuppressNullable(_, op) => SuppressNullable(DefaultLiteral, op)
    case InterpolatedString(cs) => InterpolatedString(BlankHoles(cs))
    case NullableType(_) => NullableType(DefaultLiteral)
    case MethodDecl(id, body) => MethodDecl(id, Blanks(|body|))
    case VarDecl(_, vs) => VarDecl(DefaultLiteral, Blanks(|vs|))
    case Declarator(id, init) => Declarator(id, if init.Some? then Some(DefaultLiteral) else None)
    case Other(k, o, cs) => Other(k, o, Blanks(|cs|))
    case _ => n
  }

  function Blanks(k: nat): (bs: seq<Node>)
    ensures |bs| == k
  {
    seq(k, _ => DefaultLiteral)
  }

  /** The contents with each hole's expression replaced by `default`. */
  function BlankHoles(cs: seq<Content>): (bs: seq<Content>)
    ensures |bs| == |cs|
    decreases |cs|
  {
    if cs == [] then []
    else [if cs[0].Hole? then cs[0].(expr := DefaultLiteral) else cs[0]] + BlankHoles(cs[1..])
  }

  /** Replacing a hole's expression keeps the text segments and the holes' clauses. */
  lemma {:induction false} WithHoleExprKeepsText(cs: seq<Content>, i: nat, e: Node)
    requires i < |HoleExprs(cs)|
    ensures BlankHoles(WithHoleExpr(cs, i, e)) == BlankHoles(cs)
    decreases |cs|
  {
    var h := cs[0];
    var rest := cs[1..];
    var r := WithHoleExpr(cs, i, e);
    assert r[1..] == WithHoleExpr(cs, i, e)[1..];
    if h.Hole? {
      assert HoleExprs(cs) == [h.expr] + HoleExprs(rest);
      if i > 0 {
        WithHoleExprKeepsText(rest, i - 1, e);
      }
    } else {
      assert HoleExprs(cs) == HoleExprs(rest);
      WithHoleExprKeepsText(rest, i, e);
    }
  }

  /** A node is determined by its own data and its children. */
  lemma SkeletonAndChildren(a: Node, b: Node)
    requires Skeleton(a) == Skeleton(b) && Children(a) == Children(b)
    ensures a == b
  {
    match a
    case Invocation(c, args) =>
      assert Children(a)[1..] == args && Children(b)[1..] == b.args;
    case VarDecl(t, vs) =>
      assert Children(a)[1..] == vs && Children(b)[1..] == b.vars;
    case InterpolatedString(cs) =>
      ContentsDetermined(cs, b.contents);
    case Declarator(id, init) =>
      if init.Some? { assert Children(a)[0] == init.value; }
    case _ =>
  }

  lemma {:induction false} ContentsDetermined(cs: seq<Content>, ds: seq<Content>)
    requires BlankHoles(cs) == BlankHoles(ds) && HoleExprs(cs) == HoleExprs(ds)
    ensures cs == ds
    decreases |cs|
  {
    if cs != [] {
      assert |ds| == |cs|;
      assert BlankHoles(cs)[0] == BlankHoles(ds)[0];
      assert BlankHoles(cs)[1..] == BlankHoles(cs[1..]) && BlankHoles(ds)[1..] == BlankHoles(ds[1..]);
      if cs[0].Hole? {
        assert ds[0].Hole?;
        assert HoleExprs(cs) == [cs[0].expr] + HoleExprs(cs[1..]);
        assert HoleExprs(ds) == [ds[0].expr] + HoleExprs(ds[1..]);
        assert HoleExprs(cs)[1..] == HoleExprs(cs[1..]) && HoleExprs(ds)[1..] == HoleExprs(ds[1..]);
        assert cs[0].expr == HoleExprs(cs)[0] == HoleExprs(ds)[0] == ds[0].expr;
      } else {
        assert !ds[0].Hole?;
        assert HoleExprs(cs) == HoleExprs(cs[1..]) && HoleExprs(ds) == HoleExprs(ds[1..]);
      }
      ContentsDetermined(cs[1..], ds[1..]);
      HeadThenRest(cs);
      HeadThenRest(ds);
    }
  }

  /** Putting a node's own child back gives the node. */
  lemma WithChildSame(n: Node, i: nat)
    requires i < |Children(n)|
    ensures WithChild(n, i, Children(n)[i]) == n
  {
    match n
    case InterpolatedString(cs) => WithHoleExprSame(cs, i);
    case Invocation(c, args) => if i > 0 { assert args[i - 1 := args[i - 1]] == args; }
    case VarDecl(t, vs) => if i > 0 { assert vs[i - 1 := vs[i - 1]] == vs; }
    case _ =>
  }

  lemma {:induction false} WithHoleExprSame(cs: seq<Content>, i: nat)
    requires i < |HoleExprs(cs)|
    ensures WithHoleExpr(cs, i, HoleExprs(cs)[i]) == cs
    decreases |cs|
  {
    var h := cs[0];
    var rest := cs[1..];
    HeadThenRest(cs);
    if h.Hole? {
      assert HoleExprs(cs) == [h.expr] + HoleExprs(rest);
      if i == 0 {
        assert WithHoleExpr(cs, i, h.expr) == [h.(expr := h.expr)] + rest;
      } else {
        WithHoleExprSame(rest, i - 1);
      }
    } else {
      assert HoleExprs(cs) == HoleExprs(rest);
      WithHoleExprSame(rest, i);
    }
  }

  /** A non-empty sequence is its head followed by the rest. */
  lemma HeadThenRest<T>(s: seq<T>)
    requires |s| > 0
    ensures [s[0]] + s[1..] == s
  {
  }

  lemma AppendAfterHead<T>(a: seq<T>, b: seq<T>)
    requires |a| > 0
    ensures (a + b)[0] == a[0] && (a + b)[1..] == a[1..] + b
  {
  }

  /** Number of nodes; it measures recursion over `Children`. */
  function Size(n: Node): nat {
    match n
    case IdentifierName(_) => 1
    case MemberAccess(e, _) => 1 + Size(e)
    case Invocation(c, args) => 1 + Size(c) + SizeOfAll(args)
    case Coalesce(l, _, r) => 1 + Size(l) + Size(r)
    case CoalesceAssign(l, _, r) => 1 + Size(l) + Size(r)
    case SuppressNullable(e, _) => 1 + Size(e)
    case InterpolatedString(cs) => 1 + SizeOfContents(cs)
    case StringLiteral(_) => 1
    case DefaultLiteral => 1
    case PredefinedType(_) => 1
    case NullableType(e) => 1 + Size(e)
    case MethodDecl(_, body) => 1 + SizeOfAll(body)
    case VarDecl(t, vs) => 1 + Size(t) + SizeOfAll(vs)
    case Declarator(_, init) => 1 + (if init.Some? then Size(init.value) else 0)
    case Other(_, _, cs) => 1 + SizeOfAll(cs)
  }

  function SizeOfAll(ns: seq<Node>): nat {
    if ns == [] then 0 else Size(ns[0]) + SizeOfAll(ns[1..])
  }

  function SizeOfContents(cs: seq<Content>): nat {
    if cs == [] then 0 else SizeOfContent(cs[0]) + SizeOfContents(cs[1..])
  }

  function SizeOfContent(c: Content): nat {
    match c
    case Hole(e, _, _) => Size(e)
    case Text(_) => 0
  }

  lemma {:induction false} SizeOfAllBounds(ns: seq<Node>, i: nat)
    requires i < |ns|
    ensures Size(ns[i]) <= SizeOfAll(ns)
    decreases |ns|
  {
    if i > 0 {
      SizeOfAllBounds(ns[1..], i - 1);
    }
  }

  lemma {:induction false} SizeOfContentsBounds(cs: seq<Content>, i: nat)
    requires i < |HoleExprs(cs)|
    ensures Size(HoleExprs(cs)[i]) <= SizeOfContents(cs)
    decreases |cs|
  {
    if cs[0].Hole? {
      if i > 0 {
        SizeOfContentsBounds(cs[1..], i - 1);
      }
    } else {
      SizeOfContentsBounds(cs[1..], i);
    }
  }

  /** Every child is smaller than its parent. */
  lemma ChildSmaller(n: Node, i: nat)
    requires i < |Children(n)|
    ensures Size(Children(n)[i]) < Size(n)
  {
    match n
    case Invocation(c, args) =>
      if i > 0 { SizeOfAllBounds(args, i - 1); }
    case InterpolatedString(cs) => SizeOfContentsBounds(cs, i);
    case MethodDecl(_, body) => SizeOfAllBounds(body, i);
    case VarDecl(t, vs) =>
      if i > 0 { SizeOfAllBounds(vs, i - 1); }
    case Other(_, _, cs) => SizeOfAllBounds(cs, i);
    case _ =>
  }
}
