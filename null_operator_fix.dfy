/** The fix for DEMO002 that makes a nullable local non-nullable and removes the
    `??` that read it: `string? s; ... s ?? x` becomes `string s = string.Empty; ... s`. */
module NullOperatorFix {
  import opened Wrappers
  import opened Syntax
  import opened Trees
  import opened Diagnostics
  import NullOperatorsAnalyzer

  const FixableId := "DEMO002"

  /** `string.Empty`, the default the fix gives a declarator of type `string`. */
  const StringEmpty := MemberAccess(PredefinedType(Tok("string")), Tok("Empty"))

  /** The registered action: the declarator to change and the `??` to remove. */
  datatype NullFix = NullFix(declarator: Path, coalesce: Path)

  /** The position of the parent node. */
  function Parent(q: Path): Path
    requires |q| > 0
  {
    q[..|q| - 1]
  }

  /** A non-empty path is its parent's path plus its last step. */
  lemma ParentThenLast(q: Path)
    requires |q| > 0
    ensures q == Parent(q) + [q[|q| - 1]]
  {
    var p := Parent(q);
    var s := p + [q[|q| - 1]];
    assert |s| == |q|;
    forall i | 0 <= i < |q| ensures s[i] == q[i] {
      if i < |p| { assert s[i] == p[i]; }
    }
  }

  /** `context.Diagnostics.FirstOrDefault(d => d.Id == DiagnosticId)`. */
  function FirstFixable(diagnostics: seq<Finding>): (r: Option<Finding>)
    ensures r.None? <==> forall j :: 0 <= j < |diagnostics| ==> diagnostics[j].id != FixableId
    ensures r.Some? ==>
              exists k :: 0 <= k < |diagnostics| && diagnostics[k] == r.value && r.value.id == FixableId
                       && forall j :: 0 <= j < k ==> diagnostics[j].id != FixableId
  {
    match FirstIndex(diagnostics, (d: Finding) => d.id == FixableId)
    case None => None
    case Some(k) => Some(diagnostics[k])
  }

  /** A variable declarator named `name` at `q`, below the root. */
  predicate IsDeclaratorNamed(root: Node, q: Path, name: string) {
    |q| > 0 && At(root, q).Some? && At(root, q).value.Declarator? && At(root, q).value.id.text == name
  }

  /** `FindVariableDeclarationAsync`: the first declarator in document order, below
      the root, whose identifier is the local's name; none when there is none. */
  function FindVariableDeclaration(root: Node, name: string): (r: Option<Path>)
    ensures r.Some? ==> IsDeclaratorNamed(root, r.value, name)
    ensures r.Some? ==>
              exists k :: 0 <= k < |AllPaths(root)| && AllPaths(root)[k] == r.value
                       && forall j :: 0 <= j < k ==> !IsDeclaratorNamed(root, AllPaths(root)[j], name)
    ensures r.None? <==> forall q :: !IsDeclaratorNamed(root, q, name)
  {
    var ps := AllPaths(root);
    match FirstIndex(ps, (q: Path) => IsDeclaratorNamed(root, q, name))
    case None =>
      NoDeclaratorNamed(root, name);
      None
    case Some(k) => Some(ps[k])
  }

  /** The first declarator of the name in the walk is the one found. */
  lemma FindVariableDeclarationIs(root: Node, name: string, k: nat)
    requires k < |AllPaths(root)| && IsDeclaratorNamed(root, AllPaths(root)[k], name)
    requires forall j :: 0 <= j < k ==> !IsDeclaratorNamed(root, AllPaths(root)[j], name)
    ensures FindVariableDeclaration(root, name) == Some(AllPaths(root)[k])
  {
    var ps := AllPaths(root);
    var r := FindVariableDeclaration(root, name);
    var i :| 0 <= i < |ps| && ps[i] == r.value && forall j :: 0 <= j < i ==> !IsDeclaratorNamed(root, ps[j], name);
    assert !(k < i);
    assert !(i < k);
  }

  /** No declarator of the name comes before the one found in document order:
      the search is the first match of `DescendantNodes()`. */
  lemma {:induction false} FoundFirstInDocumentOrder(root: Node, name: string, q: Path)
    requires FindVariableDeclaration(root, name).Some?
    requires Before(q, FindVariableDeclaration(root, name).value)
    ensures !IsDeclaratorNamed(root, q, name)
  {
    var ps := AllPaths(root);
    var d := FindVariableDeclaration(root, name).value;
    var k :| 0 <= k < |ps| && ps[k] == d && forall j :: 0 <= j < k ==> !IsDeclaratorNamed(root, ps[j], name);
    if ValidPath(root, q) {
      AllPathsComplete(root, q);
      AllPathsInOrder(root);
      var j :| 0 <= j < |ps| && ps[j] == q;
      assert j < k;
    }
  }

  /** What the walk does not meet is not in the tree. */
  lemma NoDeclaratorNamed(root: Node, name: string)
    requires forall j :: 0 <= j < |AllPaths(root)| ==> !IsDeclaratorNamed(root, AllPaths(root)[j], name)
    ensures forall q :: !IsDeclaratorNamed(root, q, name)
  {
    forall q | IsDeclaratorNamed(root, q, name) ensures false {
      AllPathsComplete(root, q);
    }
  }

  /** `IsNullableReferenceType`: the declarator's parent is a variable declaration
      whose type is written `T?`. */
  predicate IsNullableReferenceType(root: Node, declarator: Path) {
    && |declarator| > 0
    && At(root, Parent(declarator)).Some?
    && At(root, Parent(declarator)).value.VarDecl?
    && At(root, Parent(declarator)).value.vtype.NullableType?
  }

  /** `GetDefaultValueExpression`: `string.Empty` for the keyword type `string`,
      `default` for every other type. */
  function DefaultValue(t: Node): (e: Node)
    ensures t.PredefinedType? && t.keyword.text == "string" ==> e == StringEmpty
    ensures !(t.PredefinedType? && t.keyword.text == "string") ==> e == DefaultLiteral
  {
    match t
    case PredefinedType(keyword) => if keyword.text == "string" then StringEmpty else DefaultLiteral
    case _ => DefaultLiteral
  }

  /** `RegisterCodeFixesAsync` with `RegisterCompleteFix`: the first DEMO002 finding names
      a `??` (a binary expression; `??=` and `!` are not) whose left operand is an identifier
      bound to a local, that local's first declarator is found, and its type is nullable. */
  function RegisterFix(root: Option<Node>, diagnostics: seq<Finding>, sem: SemanticModel): (r: Option<NullFix>)
    ensures r.Some? ==>
              && root.Some? && FirstFixable(diagnostics).Some?
              && r.value.coalesce == LocationPath(FirstFixable(diagnostics).value.location)
              && At(root.value, r.value.coalesce).Some?
              && At(root.value, r.value.coalesce).value.Coalesce?
              && At(root.value, r.value.coalesce).value.left.IdentifierName?
              && r.value.coalesce + [0] in sem.locals
              && FindVariableDeclaration(root.value, sem.locals[r.value.coalesce + [0]]) == Some(r.value.declarator)
              && IsDeclaratorNamed(root.value, r.value.declarator, sem.locals[r.value.coalesce + [0]])
              && IsNullableReferenceType(root.value, r.value.declarator)
    ensures root.Some? && FirstFixable(diagnostics).Some? ==>
              var p := LocationPath(FirstFixable(diagnostics).value.location);
              At(root.value, p).Some? && !At(root.value, p).value.Coalesce? ==> r.None?
    ensures root.Some? && FirstFixable(diagnostics).Some? ==>
              var p := LocationPath(FirstFixable(diagnostics).value.location);
              && At(root.value, p).Some? && At(root.value, p).value.Coalesce?
              && At(root.value, p).value.left.IdentifierName? && p + [0] in sem.locals
              && FindVariableDeclaration(root.value, sem.locals[p + [0]]).Some?
              && IsNullableReferenceType(root.value, FindVariableDeclaration(root.value, sem.locals[p + [0]]).value)
              ==> r == Some(NullFix(FindVariableDeclaration(root.value, sem.locals[p + [0]]).value, p))
  {
    if root.None? || FirstFixable(diagnostics).None? then None
    else
      var tree := root.value;
      var diagnostic := FirstFixable(diagnostics).value;
      match FindNode(tree, diagnostic.location)
      case None => None
      case Some(node) =>
        var coalesceExpression := At(tree, node).value;
        if coalesceExpression.Coalesce? && coalesceExpression.left.IdentifierName? && node + [0] in sem.locals then
          match FindVariableDeclaration(tree, sem.locals[node + [0]])
          case None => None
          case Some(declaration) =>
            if IsNullableReferenceType(tree, declaration) then Some(NullFix(declaration, node)) else None
        else None
  }

  // ---- the syntax editor ----

  /** One recorded change: replace the node at `target` with `replacement`. */
  datatype Edit = Edit(target: Path, replacement: Node)

  /** `SyntaxEditor.GetChangedRoot`: the changes in the order they were recorded. A change
      whose node lies inside a node an earlier change replaced, or is that node, no longer
      finds it in the tree and fails; `replaced` holds the earlier changes' positions. */
  function ApplyEdits(tree: Node, replaced: seq<Path>, edits: seq<Edit>): Result<Node, Exception>
    decreases |edits|
  {
    if edits == [] then Success(tree)
    else if exists j :: 0 <= j < |replaced| && replaced[j] <= edits[0].target then Failure(NodeNotInTree)
    else ApplyEdits(ReplaceAt(tree, edits[0].target, edits[0].replacement), replaced + [edits[0].target], edits[1..])
  }

  /** Roslyn's `SyntaxEditor`, reduced to what the fix uses: it keeps the original root
      and the list of recorded replacements. */
  class SyntaxEditor {
    const originalRoot: Node
    var edits: seq<Edit>

    constructor (root: Node)
      ensures originalRoot == root && edits == []
    {
      originalRoot := root;
      edits := [];
    }

    /** Records a replacement; the node must be one of the original tree. */
    method ReplaceNode(target: Path, replacement: Node)
      requires ValidPath(originalRoot, target)
      modifies this
      ensures edits == old(edits) + [Edit(target, replacement)]
    {
      edits := edits + [Edit(target, replacement)];
    }

    /** Applies the recorded replacements one after the other. */
    method GetChangedRoot() returns (r: Result<Node, Exception>)
      ensures r == ApplyEdits(originalRoot, [], edits)
    {
      var tree := originalRoot;
      var replaced: seq<Path> := [];
      var i := 0;
      while i < |edits|
        invariant 0 <= i <= |edits|
        invariant ApplyEdits(tree, replaced, edits[i..]) == ApplyEdits(originalRoot, [], edits)
      {
        var edit := edits[i];
        assert edits[i..][0] == edit && edits[i..][1..] == edits[i + 1..];
        if exists j :: 0 <= j < |replaced| && replaced[j] <= edit.target {
          return Failure(NodeNotInTree);
        }
        tree := ReplaceAt(tree, edit.target, edit.replacement);
        replaced := replaced + [edit.target];
        i := i + 1;
      }
      r := Success(tree);
    }
  }

  // ---- the complete fix ----

  /** The declarator as the fix rewrites it: its own initializer if it has one,
      otherwise `= ` the default value of the element type. */
  function NewDeclarator(declarator: Node, elementType: Node): (d: Node)
    requires declarator.Declarator?
    ensures d.Declarator? && d.id == declarator.id && d.init.Some?
    ensures declarator.init.Some? ==> d.init == declarator.init
    ensures declarator.init.None? ==> d.init == Some(DefaultValue(elementType))
  {
    Declarator(declarator.id, if declarator.init.Some? then declarator.init else Some(DefaultValue(elementType)))
  }

  /** What `ApplyCompleteFix` computes: the declaration becomes `T x = ...;` (the element
      type, and only the fixed declarator), and the `??` becomes its left operand. */
  function CompleteFix(root: Node, declarator: Path, coalesce: Path): Result<Node, Exception>
    requires At(root, declarator).Some? && At(root, declarator).value.Declarator?
    requires At(root, coalesce).Some? && At(root, coalesce).value.Coalesce?
  {
    if |declarator| == 0 then Failure(NullReference)
    else
      PrefixValid(root, declarator, |declarator| - 1);
      var declaration := At(root, Parent(declarator)).value;
      if !declaration.VarDecl? || !declaration.vtype.NullableType? then Failure(InvalidCast)
      else
        var elementType := declaration.vtype.elem;
        var newDeclaration := VarDecl(elementType, [NewDeclarator(At(root, declarator).value, elementType)]);
        ApplyEdits(root, [], [Edit(Parent(declarator), newDeclaration), Edit(coalesce, At(root, coalesce).value.left)])
  }

  /** `ApplyCompleteFix`, through a syntax editor. */
  method ApplyCompleteFix(root: Node, declarator: Path, coalesce: Path) returns (r: Result<Node, Exception>)
    requires At(root, declarator).Some? && At(root, declarator).value.Declarator?
    requires At(root, coalesce).Some? && At(root, coalesce).value.Coalesce?
    ensures r == CompleteFix(root, declarator, coalesce)
  {
    var editor := new SyntaxEditor(root);
    if |declarator| == 0 {
      return Failure(NullReference);
    }
    var declarationPath := Parent(declarator);
    PrefixValid(root, declarator, |declarator| - 1);
    var variableDeclaration := At(root, declarationPath).value;
    if !variableDeclaration.VarDecl? {
      return Failure(InvalidCast);
    }
    var nullableType := variableDeclaration.vtype;
    if !nullableType.NullableType? {
      return Failure(InvalidCast);
    }
    var newDeclarator := NewDeclarator(At(root, declarator).value, nullableType.elem);
    var newVariableDeclaration := VarDecl(nullableType.elem, [newDeclarator]);
    editor.ReplaceNode(declarationPath, newVariableDeclaration);
    editor.ReplaceNode(coalesce, At(root, coalesce).value.left);
    r := editor.GetChangedRoot();
  }

  /** The two edits as `CompleteFix` records them, when the casts succeed. */
  function FixEdits(root: Node, declarator: Path, coalesce: Path): seq<Edit>
    requires At(root, declarator).Some? && At(root, declarator).value.Declarator?
    requires At(root, coalesce).Some? && At(root, coalesce).value.Coalesce?
    requires IsNullableReferenceType(root, declarator)
  {
    var elementType := At(root, Parent(declarator)).value.vtype.elem;
    [Edit(Parent(declarator), VarDecl(elementType, [NewDeclarator(At(root, declarator).value, elementType)])),
     Edit(coalesce, At(root, coalesce).value.left)]
  }

  /** Two edits, the second not inside the first: both are applied in turn. */
  lemma {:induction false} TwoEdits(tree: Node, e1: Edit, e2: Edit)
    requires !(e1.target <= e2.target)
    ensures ApplyEdits(tree, [], [e1, e2]) == Success(ReplaceAt(ReplaceAt(tree, e1.target, e1.replacement), e2.target, e2.replacement))
  {
    var t1 := ReplaceAt(tree, e1.target, e1.replacement);
    var none: seq<Path> := [];
    assert none + [e1.target] == [e1.target];
    assert [e1, e2][1..] == [e2];
    assert ApplyEdits(tree, [], [e1, e2]) == ApplyEdits(t1, [e1.target], [e2]);
    assert !(exists j :: 0 <= j < |[e1.target]| && [e1.target][j] <= e2.target);
    var t2 := ReplaceAt(t1, e2.target, e2.replacement);
    assert [e2][1..] == [];
    assert ApplyEdits(t1, [e1.target], [e2]) == ApplyEdits(t2, [e1.target] + [e2.target], []);
  }

  /** The usual case, the `??` outside the declaration: the declaration holds only the
      rewritten declarator with its type made non-nullable, the `??` is replaced by its
      left operand (on which the rule is then silent), and nothing else changes. */
  lemma {:induction false} CompleteFixDisjoint(root: Node, declarator: Path, coalesce: Path)
    requires At(root, declarator).Some? && At(root, declarator).value.Declarator?
    requires At(root, coalesce).Some? && At(root, coalesce).value.Coalesce?
    requires IsNullableReferenceType(root, declarator)
    requires Disjoint(Parent(declarator), coalesce)
    ensures var r := CompleteFix(root, declarator, coalesce);
            var d := Parent(declarator);
            var elementType := At(root, d).value.vtype.elem;
            var newDeclarator := NewDeclarator(At(root, declarator).value, elementType);
            && r.Success?
            && At(r.value, d) == Some(VarDecl(elementType, [newDeclarator]))
            && At(r.value, d + [1]) == Some(newDeclarator)
            && IsDeclaratorNamed(r.value, d + [1], At(root, declarator).value.id.text)
            && (!elementType.NullableType? ==> !IsNullableReferenceType(r.value, d + [1]))
            && At(r.value, coalesce) == Some(At(root, coalesce).value.left)
            && (At(root, coalesce).value.left.IdentifierName? ==>
                  NullOperatorsAnalyzer.Analyze(NullOperatorsAnalyzer.GlobalRule, At(r.value, coalesce).value, coalesce) == Silent)
            && (forall q :: Disjoint(d, q) && Disjoint(coalesce, q) ==> At(r.value, q) == At(root, q))
            && AncestorsKept(root, r.value, d) && AncestorsKept(root, r.value, coalesce)
  {
    var d := Parent(declarator);
    PrefixValid(root, declarator, |declarator| - 1);
    var edits := FixEdits(root, declarator, coalesce);
    DisjointEdits(root, edits[0], edits[1]);
    assert edits == [edits[0], edits[1]];
    assert CompleteFix(root, declarator, coalesce) == ApplyEdits(root, [], edits);
    SingleDeclaratorReadsBack(ApplyEdits(root, [], edits).value, d, At(root, d).value.vtype.elem,
                              NewDeclarator(At(root, declarator).value, At(root, d).value.vtype.elem));
  }

  /** Below a declaration with a single declarator: the declarator is child 1, and its
      type is nullable only when the declaration's type is. */
  lemma SingleDeclaratorReadsBack(r: Node, d: Path, elementType: Node, declarator: Node)
    requires declarator.Declarator?
    requires At(r, d) == Some(VarDecl(elementType, [declarator]))
    ensures At(r, d + [1]) == Some(declarator)
    ensures IsDeclaratorNamed(r, d + [1], declarator.id.text)
    ensures !elementType.NullableType? ==> !IsNullableReferenceType(r, d + [1])
  {
    AtConcat(r, d, [1]);
    assert Parent(d + [1]) == d;
  }

  /** The `??` inside the declaration being rewritten (it is in another declarator's
      initializer): the declaration's replacement removes it, and the editor fails. */
  lemma CompleteFixCoalesceInDeclaration(root: Node, declarator: Path, coalesce: Path)
    requires At(root, declarator).Some? && At(root, declarator).value.Declarator?
    requires At(root, coalesce).Some? && At(root, coalesce).value.Coalesce?
    requires IsNullableReferenceType(root, declarator)
    requires Parent(declarator) <= coalesce
    ensures CompleteFix(root, declarator, coalesce) == Failure(NodeNotInTree)
  {
    PrefixValid(root, declarator, |declarator| - 1);
    var edits := FixEdits(root, declarator, coalesce);
    var t1 := ReplaceAt(root, Parent(declarator), edits[0].replacement);
    var none: seq<Path> := [];
    assert none + [Parent(declarator)] == [Parent(declarator)];
    assert edits[1..] == [edits[1]];
    assert ApplyEdits(root, [], edits) == ApplyEdits(t1, [Parent(declarator)], [edits[1]]);
    assert [Parent(declarator)][0] <= edits[1].target;
  }

  /** The declaration inside the `??` (in a lambda of its right operand): the `??` is
      replaced by its left operand afterwards, which discards the rewritten declaration. */
  lemma {:induction false} CompleteFixDeclarationInCoalesce(root: Node, declarator: Path, coalesce: Path)
    requires At(root, declarator).Some? && At(root, declarator).value.Declarator?
    requires At(root, coalesce).Some? && At(root, coalesce).value.Coalesce?
    requires IsNullableReferenceType(root, declarator)
    requires coalesce < Parent(declarator)
    ensures var r := CompleteFix(root, declarator, coalesce);
            && r.Success?
            && At(r.value, coalesce) == Some(At(root, coalesce).value.left)
            && forall q :: Disjoint(coalesce, q) ==> At(r.value, q) == At(root, q)
  {
    var d := Parent(declarator);
    PrefixValid(root, declarator, |declarator| - 1);
    var edits := FixEdits(root, declarator, coalesce);
    var t1 := ReplaceAt(root, d, edits[0].replacement);
    ReplaceAtAncestorValid(root, d, edits[0].replacement, coalesce);
    var t2 := ReplaceAt(t1, coalesce, edits[1].replacement);
    ReplaceAtTarget(t1, coalesce, edits[1].replacement);
    ReplaceAtFrameAll(t1, coalesce, edits[1].replacement);
    TwoEdits(root, edits[0], edits[1]);
    assert CompleteFix(root, declarator, coalesce) == Success(t2);
    forall q | Disjoint(coalesce, q) ensures At(t2, q) == At(root, q) {
      if q <= d { PrefixesComparable(q, coalesce, d); }
      ReplaceAtFrame(root, d, edits[0].replacement, q);
    }
  }

  /** Two edits at disjoint positions of the original tree: both land, nothing else changes. */
  lemma {:induction false} DisjointEdits(root: Node, e1: Edit, e2: Edit)
    requires ValidPath(root, e1.target) && ValidPath(root, e2.target) && Disjoint(e1.target, e2.target)
    ensures ApplyEdits(root, [], [e1, e2]).Success?
    ensures var r := ApplyEdits(root, [], [e1, e2]).value;
            && At(r, e1.target) == Some(e1.replacement)
            && At(r, e2.target) == Some(e2.replacement)
            && (forall q :: Disjoint(e1.target, q) && Disjoint(e2.target, q) ==> At(r, q) == At(root, q))
            && AncestorsKept(root, r, e1.target) && AncestorsKept(root, r, e2.target)
  {
    var t1 := ReplaceAt(root, e1.target, e1.replacement);
    var t2 := ReplaceAt(t1, e2.target, e2.replacement);
    ReplaceAtTarget(root, e1.target, e1.replacement);
    ReplaceAtFrameAll(root, e1.target, e1.replacement);
    ReplaceAtTarget(t1, e2.target, e2.replacement);
    ReplaceAtFrameAll(t1, e2.target, e2.replacement);
    TwoEdits(root, e1, e2);
    ReplaceAtKeepsAncestors(root, e1.target, e1.replacement);
    ReplaceAtKeepsAncestors(t1, e2.target, e2.replacement);
    AncestorsKeptAfterSecond(root, t1, t2, e1.target, e2.target);
  }

  /** As written, the rewritten declaration keeps only the fixed declarator: every other
      declarator of the same declaration is deleted. */
  lemma CompleteFixDropsOtherDeclarators(root: Node, declarator: Path, coalesce: Path, j: nat)
    requires At(root, declarator).Some? && At(root, declarator).value.Declarator?
    requires At(root, coalesce).Some? && At(root, coalesce).value.Coalesce?
    requires IsNullableReferenceType(root, declarator)
    requires Disjoint(Parent(declarator), coalesce)
    requires j >= 2 && ValidPath(root, Parent(declarator) + [j])
    ensures CompleteFix(root, declarator, coalesce).Success?
    ensures !ValidPath(CompleteFix(root, declarator, coalesce).value, Parent(declarator) + [j])
  {
    var d := Parent(declarator);
    var elementType := At(root, d).value.vtype.elem;
    var newDeclarator := NewDeclarator(At(root, declarator).value, elementType);
    var r := CompleteFix(root, declarator, coalesce);
    assert r.Success? && At(r.value, d) == Some(VarDecl(elementType, [newDeclarator])) by {
      CompleteFixDisjoint(root, declarator, coalesce);
    }
    AtConcat(r.value, d, [j]);
  }

  /** The fixed declarator's place among the declaration's declarators: child 0 of a
      declaration is its type, so the declarator is child `k` with `k >= 1`. */
  lemma DeclaratorIndex(root: Node, declarator: Path)
    requires At(root, declarator).Some? && At(root, declarator).value.Declarator?
    requires IsNullableReferenceType(root, declarator)
    ensures var k := declarator[|declarator| - 1];
            1 <= k <= |At(root, Parent(declarator)).value.vars|
  {
    var d := Parent(declarator);
    var k := declarator[|declarator| - 1];
    ParentThenLast(declarator);
    PrefixValid(root, declarator, |declarator| - 1);
    AtConcat(root, d, [k]);
  }

  /** The declaration as the corrected fix rewrites it: the element type, and the fixed
      declarator rewritten in its own place among the others. */
  function CorrectedDeclaration(root: Node, declarator: Path): (r: Node)
    requires At(root, declarator).Some? && At(root, declarator).value.Declarator?
    requires IsNullableReferenceType(root, declarator)
    ensures var declaration := At(root, Parent(declarator)).value;
            var k := declarator[|declarator| - 1];
            && r.VarDecl? && r.vtype == declaration.vtype.elem
            && |Children(r)| == |Children(declaration)|
            && k < |Children(r)|
            && Children(r)[k] == NewDeclarator(At(root, declarator).value, declaration.vtype.elem)
            && forall j :: 1 <= j < |Children(r)| && j != k ==> Children(r)[j] == Children(declaration)[j]
  {
    DeclaratorIndex(root, declarator);
    var declaration := At(root, Parent(declarator)).value;
    var k := declarator[|declarator| - 1] - 1;
    var elementType := declaration.vtype.elem;
    var newDeclarator := NewDeclarator(At(root, declarator).value, elementType);
    DeclaratorReplaced(declaration, elementType, k, newDeclarator);
    VarDecl(elementType, declaration.vars[k := newDeclarator])
  }

  /** A declaration with a new type and declarator `k` replaced: the children are the
      same, one for one, except the type and child `k + 1`. */
  lemma DeclaratorReplaced(declaration: Node, elementType: Node, k: nat, newDeclarator: Node)
    requires declaration.VarDecl? && k < |declaration.vars|
    ensures var r := VarDecl(elementType, declaration.vars[k := newDeclarator]);
            && |Children(r)| == |Children(declaration)|
            && Children(r)[k + 1] == newDeclarator
            && forall j :: 1 <= j < |Children(r)| && j != k + 1 ==> Children(r)[j] == Children(declaration)[j]
  {
    var r := VarDecl(elementType, declaration.vars[k := newDeclarator]);
    assert Children(r) == [elementType] + declaration.vars[k := newDeclarator];
    assert Children(declaration) == [declaration.vtype] + declaration.vars;
  }

  /** The fix as evidently intended: the fixed declarator is rewritten in its place and
      the other declarators of the declaration are kept. */
  function CompleteFixCorrected(root: Node, declarator: Path, coalesce: Path): Result<Node, Exception>
    requires At(root, declarator).Some? && At(root, declarator).value.Declarator?
    requires At(root, coalesce).Some? && At(root, coalesce).value.Coalesce?
  {
    if |declarator| == 0 then Failure(NullReference)
    else
      PrefixValid(root, declarator, |declarator| - 1);
      var declaration := At(root, Parent(declarator)).value;
      if !declaration.VarDecl? || !declaration.vtype.NullableType? then Failure(InvalidCast)
      else
        ApplyEdits(root, [], [Edit(Parent(declarator), CorrectedDeclaration(root, declarator)),
                              Edit(coalesce, At(root, coalesce).value.left)])
  }

  /** The corrected fix, once its casts succeed, is the two disjoint edits. */
  lemma CorrectedFixEdits(root: Node, declarator: Path, coalesce: Path)
    requires At(root, declarator).Some? && At(root, declarator).value.Declarator?
    requires At(root, coalesce).Some? && At(root, coalesce).value.Coalesce?
    requires IsNullableReferenceType(root, declarator)
    ensures CompleteFixCorrected(root, declarator, coalesce)
         == ApplyEdits(root, [], [Edit(Parent(declarator), CorrectedDeclaration(root, declarator)),
                                  Edit(coalesce, At(root, coalesce).value.left)])
  {
  }

  /** With the correction, the type loses its `?`, the fixed declarator is rewritten
      where it stood, every other declarator stays at its own position, and the `??`
      becomes its left operand. */
  lemma {:induction false} CorrectedFixKeepsOtherDeclarators(root: Node, declarator: Path, coalesce: Path)
    requires At(root, declarator).Some? && At(root, declarator).value.Declarator?
    requires At(root, coalesce).Some? && At(root, coalesce).value.Coalesce?
    requires IsNullableReferenceType(root, declarator)
    requires Disjoint(Parent(declarator), coalesce)
    ensures var r := CompleteFixCorrected(root, declarator, coalesce);
            var d := Parent(declarator);
            var declaration := At(root, d).value;
            && r.Success?
            && At(r.value, d + [0]) == Some(declaration.vtype.elem)
            && At(r.value, declarator) == Some(NewDeclarator(At(root, declarator).value, declaration.vtype.elem))
            && (forall j :: 1 <= j <= |declaration.vars| && d + [j] != declarator ==>
                  At(r.value, d + [j]) == At(root, d + [j]))
            && At(r.value, coalesce) == Some(At(root, coalesce).value.left)
            && (forall q :: Disjoint(d, q) && Disjoint(coalesce, q) ==> At(r.value, q) == At(root, q))
            && AncestorsKept(root, r.value, d) && AncestorsKept(root, r.value, coalesce)
  {
    var d := Parent(declarator);
    var newDeclaration := CorrectedDeclaration(root, declarator);
    var e1 := Edit(d, newDeclaration);
    var e2 := Edit(coalesce, At(root, coalesce).value.left);
    DisjointEdits(root, e1, e2);
    CorrectedFixEdits(root, declarator, coalesce);
    CorrectedDeclarationReadsBack(root, ApplyEdits(root, [], [e1, e2]).value, declarator);
  }

  /** Below the corrected declaration, wherever it was put: the element type, the
      rewritten declarator in its own place, and the other declarators as they were. */
  lemma CorrectedDeclarationReadsBack(root: Node, r: Node, declarator: Path)
    requires At(root, declarator).Some? && At(root, declarator).value.Declarator?
    requires IsNullableReferenceType(root, declarator)
    requires At(r, Parent(declarator)) == Some(CorrectedDeclaration(root, declarator))
    ensures var d := Parent(declarator);
            var declaration := At(root, d).value;
            && At(r, d + [0]) == Some(declaration.vtype.elem)
            && At(r, declarator) == Some(NewDeclarator(At(root, declarator).value, declaration.vtype.elem))
            && forall j :: 1 <= j <= |declaration.vars| && d + [j] != declarator ==>
                 At(r, d + [j]) == At(root, d + [j])
  {
    CorrectedTypeReadBack(root, r, declarator);
    CorrectedDeclaratorReadBack(root, r, declarator);
    OtherDeclaratorsReadBack(root, r, declarator);
  }

  lemma CorrectedTypeReadBack(root: Node, r: Node, declarator: Path)
    requires At(root, declarator).Some? && At(root, declarator).value.Declarator?
    requires IsNullableReferenceType(root, declarator)
    requires At(r, Parent(declarator)) == Some(CorrectedDeclaration(root, declarator))
    ensures At(r, Parent(declarator) + [0]) == Some(At(root, Parent(declarator)).value.vtype.elem)
  {
    var newDeclaration := CorrectedDeclaration(root, declarator);
    assert Children(newDeclaration)[0] == newDeclaration.vtype;
    ChildAt(r, Parent(declarator), 0);
  }

  lemma CorrectedDeclaratorReadBack(root: Node, r: Node, declarator: Path)
    requires At(root, declarator).Some? && At(root, declarator).value.Declarator?
    requires IsNullableReferenceType(root, declarator)
    requires At(r, Parent(declarator)) == Some(CorrectedDeclaration(root, declarator))
    ensures At(r, declarator)
         == Some(NewDeclarator(At(root, declarator).value, At(root, Parent(declarator)).value.vtype.elem))
  {
    var d := Parent(declarator);
    var k := declarator[|declarator| - 1];
    ParentThenLast(declarator);
    ChildAt(r, d, k);
  }

  lemma OtherDeclaratorsReadBack(root: Node, r: Node, declarator: Path)
    requires At(root, declarator).Some? && At(root, declarator).value.Declarator?
    requires IsNullableReferenceType(root, declarator)
    requires At(r, Parent(declarator)) == Some(CorrectedDeclaration(root, declarator))
    ensures var d := Parent(declarator);
            forall j :: 1 <= j <= |At(root, d).value.vars| && d + [j] != declarator ==>
              At(r, d + [j]) == At(root, d + [j])
  {
    var d := Parent(declarator);
    var declaration := At(root, d).value;
    var nd := CorrectedDeclaration(root, declarator);
    var k := declarator[|declarator| - 1];
    ParentThenLast(declarator);
    assert |Children(declaration)| == |declaration.vars| + 1;
    OthersKept(root, r, d, declaration, nd, k);
  }

  /** The declarators other than child `k` read the same after a replacement at `d`
      that carried them over. */
  lemma OthersKept(root: Node, r: Node, d: Path, od: Node, nd: Node, k: nat)
    requires At(root, d) == Some(od) && At(r, d) == Some(nd) && od.VarDecl?
    requires |Children(nd)| == |Children(od)| == |od.vars| + 1
    requires forall j :: 1 <= j < |Children(nd)| && j != k ==> Children(nd)[j] == Children(od)[j]
    ensures forall j :: 1 <= j <= |od.vars| && d + [j] != d + [k] ==> At(r, d + [j]) == At(root, d + [j])
  {
    forall j | 1 <= j <= |od.vars| && d + [j] != d + [k]
      ensures At(r, d + [j]) == At(root, d + [j])
    {
      assert j != k;
      SiblingKept(root, r, d, od, nd, j);
    }
  }

  /** A child that a replacement at `d` carried over unchanged reads the same below `d`. */
  lemma SiblingKept(root: Node, r: Node, d: Path, od: Node, nd: Node, j: nat)
    requires At(root, d) == Some(od) && At(r, d) == Some(nd)
    requires j < |Children(nd)| && j < |Children(od)| && Children(nd)[j] == Children(od)[j]
    ensures At(r, d + [j]) == At(root, d + [j])
  {
    ChildAt(r, d, j);
    ChildAt(root, d, j);
  }
}
