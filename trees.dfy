/** Positions in a syntax tree, lookup and replacement at a position, the
    document-order walk (`DescendantNodes`) and the ancestor search
    (`AncestorsAndSelf().OfType<K>()`). */
module Trees {
  import opened Wrappers
  import opened Syntax

  /** A position: the child index taken at each level, from the root down.
      The ancestors of a position are its prefixes (`p <= q` is "p is a prefix of q"). */
  type Path = seq<nat>

  function At(n: Node, p: Path): Option<Node>
    decreases |p|
  {
    if p == [] then Some(n)
    else if p[0] < |Children(n)| then At(Children(n)[p[0]], p[1..])
    else None
  }

  predicate ValidPath(n: Node, p: Path) {
    At(n, p).Some?
  }

  /** The node at `p` has kind `k`. */
  predicate HasKind(root: Node, p: Path, k: SyntaxKind) {
    At(root, p).Some? && IsOfKind(At(root, p).value, k)
  }

  /** Two positions neither of which lies inside the other. */
  predicate Disjoint(p: Path, q: Path) {
    !(p <= q) && !(q <= p)
  }

  /** `ReplaceNode`: the tree with the node at `p` replaced by `m`. The
      parents of `p` are rebuilt around the new node; a position that is not
      in the tree leaves the tree as it was. */
  function ReplaceAt(n: Node, p: Path, m: Node): Node
    decreases |p|
  {
    if p == [] then m
    else if p[0] < |Children(n)| then WithChild(n, p[0], ReplaceAt(Children(n)[p[0]], p[1..], m))
    else n
  }

  /** After the replacement the new node sits at the position. */
  lemma {:induction false} ReplaceAtTarget(n: Node, p: Path, m: Node)
    requires ValidPath(n, p)
    ensures At(ReplaceAt(n, p, m), p) == Some(m)
    decreases |p|
  {
    if p != [] {
      ReplaceAtTarget(Children(n)[p[0]], p[1..], m);
    }
  }

  /** Two ancestors of one position lie one inside the other. */
  lemma PrefixesComparable(a: Path, b: Path, c: Path)
    requires a <= c && b <= c
    ensures a <= b || b <= a
  {
    if |a| <= |b| {
      assert a == c[..|a|] && b == c[..|b|] && a == b[..|a|];
    } else {
      assert a == c[..|a|] && b == c[..|b|] && b == a[..|b|];
    }
  }

  /** A position not in the tree: the replacement leaves the tree as it was. */
  lemma {:induction false} ReplaceAtMissing(n: Node, p: Path, m: Node)
    requires !ValidPath(n, p)
    ensures ReplaceAt(n, p, m) == n
    decreases |p|
  {
    if p != [] && p[0] < |Children(n)| {
      var i := p[0];
      ReplaceAtMissing(Children(n)[i], p[1..], m);
      WithChildSame(n, i);
    }
  }

  /** The two cases of a replacement together. */
  lemma ReplaceAtCases(n: Node, p: Path, m: Node)
    ensures ValidPath(n, p) ==> At(ReplaceAt(n, p, m), p) == Some(m)
    ensures !ValidPath(n, p) ==> ReplaceAt(n, p, m) == n
  {
    if ValidPath(n, p) { ReplaceAtTarget(n, p, m); } else { ReplaceAtMissing(n, p, m); }
  }

  /** A replacement leaves every node outside its own position as it was. */
  lemma {:induction false} ReplaceAtFrame(n: Node, p: Path, m: Node, q: Path)
    requires Disjoint(p, q)
    ensures At(ReplaceAt(n, p, m), q) == At(n, q)
    decreases |q|
  {
    var cs := Children(n);
    if p[0] < |cs| {
      var r := ReplaceAt(n, p, m);
      ReplaceAtRebuilds(n, p, m);
      if q[0] < |cs| {
        AtThroughChild(r, q);
        AtThroughChild(n, q);
        if p[0] == q[0] {
          DisjointTails(p, q);
          ReplaceAtFrame(cs[p[0]], p[1..], m, q[1..]);
        }
      }
    }
  }

  /** Replacing below child `p[0]` rebuilds the node around that child alone. */
  lemma ReplaceAtRebuilds(n: Node, p: Path, m: Node)
    requires p != [] && p[0] < |Children(n)|
    ensures Children(ReplaceAt(n, p, m)) == Children(n)[p[0] := ReplaceAt(Children(n)[p[0]], p[1..], m)]
  {
  }

  /** A position below child `q[0]` is that child's position `q[1..]`. */
  lemma AtThroughChild(n: Node, q: Path)
    requires q != [] && q[0] < |Children(n)|
    ensures At(n, q) == At(Children(n)[q[0]], q[1..])
  {
  }

  /** Disjoint positions through the same child stay disjoint below it. */
  lemma DisjointTails(p: Path, q: Path)
    requires Disjoint(p, q) && p[0] == q[0]
    ensures Disjoint(p[1..], q[1..])
  {
    PrefixThroughHead(p, q);
    PrefixThroughHead(q, p);
  }

  /** Two positions through the same child: one is above the other exactly when
      it is so below that child. */
  lemma PrefixThroughHead(p: Path, q: Path)
    requires p != [] && q != [] && p[0] == q[0]
    ensures (p <= q) == (p[1..] <= q[1..])
  {
    HeadThenRest(p);
    HeadThenRest(q);
  }

  lemma ReplaceAtFrameAll(n: Node, p: Path, m: Node)
    ensures forall q :: Disjoint(p, q) ==> At(ReplaceAt(n, p, m), q) == At(n, q)
  {
    forall q | Disjoint(p, q) ensures At(ReplaceAt(n, p, m), q) == At(n, q) {
      ReplaceAtFrame(n, p, m, q);
    }
  }

  /** The positions above a replaced node stay in the tree. */
  lemma {:induction false} ReplaceAtAncestorValid(n: Node, p: Path, m: Node, q: Path)
    requires ValidPath(n, p) && q <= p
    ensures ValidPath(ReplaceAt(n, p, m), q)
    decreases |q|
  {
    if q != [] {
      assert q[1..] <= p[1..];
      ReplaceAtAncestorValid(Children(n)[p[0]], p[1..], m, q[1..]);
    }
  }

  /** The ancestors of a replaced node keep their kinds. */
  lemma {:induction false} ReplaceAtAncestor(n: Node, p: Path, m: Node, q: Path, k: SyntaxKind)
    requires ValidPath(n, p) && q < p
    ensures HasKind(ReplaceAt(n, p, m), q, k) == HasKind(n, q, k)
    decreases |q|
  {
    if q != [] {
      assert q[1..] < p[1..];
      ReplaceAtAncestor(Children(n)[p[0]], p[1..], m, q[1..], k);
    }
  }

  /** Every node above `p` in `a` is still in `b` with its own data (its tokens and
      constructor) unchanged; only its children may differ. */
  ghost predicate AncestorsKept(a: Node, b: Node, p: Path) {
    forall q :: q < p && ValidPath(a, q) ==>
      ValidPath(b, q) && Skeleton(At(b, q).value) == Skeleton(At(a, q).value)
  }

  /** A replacement rebuilds the ancestors of its position around the new node and
      keeps their own data. */
  lemma ReplaceAtKeepsAncestors(n: Node, p: Path, m: Node)
    ensures AncestorsKept(n, ReplaceAt(n, p, m), p)
  {
    if ValidPath(n, p) {
      forall q | q < p && ValidPath(n, q)
        ensures ValidPath(ReplaceAt(n, p, m), q)
        ensures Skeleton(At(ReplaceAt(n, p, m), q).value) == Skeleton(At(n, q).value)
      {
        ReplaceAtAncestorSkeleton(n, p, m, q);
      }
    } else {
      ReplaceAtMissing(n, p, m);
    }
  }

  lemma {:induction false} ReplaceAtAncestorSkeleton(n: Node, p: Path, m: Node, q: Path)
    requires ValidPath(n, p) && q < p
    ensures ValidPath(n, q) && ValidPath(ReplaceAt(n, p, m), q)
    ensures Skeleton(At(ReplaceAt(n, p, m), q).value) == Skeleton(At(n, q).value)
    decreases |q|
  {
    PrefixValid(n, p, |q|);
    assert p[..|q|] == q;
    ReplaceAtAncestorValid(n, p, m, q);
    var cs := Children(n);
    var c := ReplaceAt(cs[p[0]], p[1..], m);
    assert ReplaceAt(n, p, m) == WithChild(n, p[0], c);
    if q != [] {
      PrefixThroughHead(q, p);
      ReplaceAtRebuilds(n, p, m);
      AtThroughChild(ReplaceAt(n, p, m), q);
      AtThroughChild(n, q);
      ReplaceAtAncestorSkeleton(cs[p[0]], p[1..], m, q[1..]);
    }
  }

  /** Two replacements at disjoint positions keep the ancestors of both. */
  lemma AncestorsKeptAfterSecond(a: Node, b: Node, c: Node, p1: Path, p2: Path)
    requires Disjoint(p1, p2)
    requires AncestorsKept(a, b, p1) && AncestorsKept(b, c, p2)
    requires forall q :: Disjoint(p1, q) ==> At(b, q) == At(a, q)
    requires forall q :: Disjoint(p2, q) ==> At(c, q) == At(b, q)
    ensures AncestorsKept(a, c, p1) && AncestorsKept(a, c, p2)
  {
    KeptAboveFirst(a, b, c, p1, p2);
    KeptAboveSecond(a, b, c, p1, p2);
  }

  lemma KeptAboveFirst(a: Node, b: Node, c: Node, p1: Path, p2: Path)
    requires Disjoint(p1, p2)
    requires AncestorsKept(a, b, p1) && AncestorsKept(b, c, p2)
    requires forall q :: Disjoint(p2, q) ==> At(c, q) == At(b, q)
    ensures AncestorsKept(a, c, p1)
  {
    forall q | q < p1 && ValidPath(a, q)
      ensures ValidPath(c, q) && Skeleton(At(c, q).value) == Skeleton(At(a, q).value)
    {
      AboveOrDisjoint(q, p2, p1);
    }
  }

  lemma KeptAboveSecond(a: Node, b: Node, c: Node, p1: Path, p2: Path)
    requires Disjoint(p1, p2)
    requires AncestorsKept(a, b, p1) && AncestorsKept(b, c, p2)
    requires forall q :: Disjoint(p1, q) ==> At(b, q) == At(a, q)
    ensures AncestorsKept(a, c, p2)
  {
    forall q | q < p2 && ValidPath(a, q)
      ensures ValidPath(c, q) && Skeleton(At(c, q).value) == Skeleton(At(a, q).value)
    {
      AboveOrDisjoint(q, p1, p2);
    }
  }

  /** A position above `p` is above a position `o` disjoint from `p`, or disjoint from it. */
  lemma AboveOrDisjoint(q: Path, o: Path, p: Path)
    requires q < p && Disjoint(p, o)
    ensures q < o || Disjoint(o, q)
  {
    if o <= q {
      PrefixTransitive(o, q, p);
    }
  }

  lemma PrefixTransitive(a: Path, b: Path, c: Path)
    requires a <= b && b <= c
    ensures a <= c
  {
    assert c[..|b|] == b && b[..|a|] == a;
    assert c[..|b|][..|a|] == c[..|a|];
  }

  /** The prefixes of a position in the tree are positions in the tree. */
  lemma {:induction false} PrefixValid(n: Node, p: Path, j: nat)
    requires ValidPath(n, p) && j <= |p|
    ensures ValidPath(n, p[..j])
    decreases |p|
  {
    if j > 0 {
      assert p[..j][1..] == p[1..][..j - 1];
      PrefixValid(Children(n)[p[0]], p[1..], j - 1);
    }
  }

  // ---- the document-order walk ----

  /** `[i] + p` for every `p` in `ps`. */
  function Under(i: nat, ps: seq<Path>): (r: seq<Path>)
    ensures |r| == |ps|
    ensures forall k :: 0 <= k < |ps| ==> r[k] == [i] + ps[k]
  {
    seq(|ps|, k requires 0 <= k < |ps| => [i] + ps[k])
  }

  /** Every position of the tree in document (pre-)order, the root's `[]` first.
      `DescendantNodes()` is this walk without its first element. */
  function AllPaths(n: Node): (ps: seq<Path>)
    ensures |ps| > 0 && ps[0] == []
    decreases Size(n), 1, 0
  {
    [[]] + ChildPaths(n, 0)
  }

  /** The positions inside the children `i`, `i + 1`, ... of `n`, in document order. */
  function ChildPaths(n: Node, i: nat): seq<Path>
    decreases Size(n), 0, |Children(n)| - i
  {
    if i >= |Children(n)| then []
    else
      ChildSmaller(n, i);
      Under(i, AllPaths(Children(n)[i])) + ChildPaths(n, i + 1)
  }

  /** The walk visits only positions of the tree. */
  lemma {:induction false} AllPathsValid(n: Node)
    ensures forall p :: p in AllPaths(n) ==> ValidPath(n, p)
    decreases Size(n), 1, 0
  {
    ChildPathsValid(n, 0);
  }

  lemma {:induction false} ChildPathsValid(n: Node, i: nat)
    ensures forall p :: p in ChildPaths(n, i) ==> p != [] && ValidPath(n, p)
    decreases Size(n), 0, |Children(n)| - i
  {
    if i < |Children(n)| {
      ChildSmaller(n, i);
      var c := Children(n)[i];
      AllPathsValid(c);
      ChildPathsValid(n, i + 1);
      forall p | p in Under(i, AllPaths(c)) ensures p != [] && ValidPath(n, p) {
        var k :| 0 <= k < |AllPaths(c)| && p == [i] + AllPaths(c)[k];
        assert p[0] == i && p[1..] == AllPaths(c)[k] && AllPaths(c)[k] in AllPaths(c);
        assert At(n, p) == At(c, p[1..]);
      }
    }
  }

  lemma AllPathsCompleteAll(n: Node)
    ensures forall q :: ValidPath(n, q) ==> q in AllPaths(n)
  {
    forall q | ValidPath(n, q) ensures q in AllPaths(n) {
      AllPathsComplete(n, q);
    }
  }

  /** The walk visits every position of the tree. */
  lemma {:induction false} AllPathsComplete(n: Node, q: Path)
    requires ValidPath(n, q)
    ensures q in AllPaths(n)
    decreases Size(n), 1, 0
  {
    if q != [] {
      ChildPathsComplete(n, 0, q);
    }
  }

  lemma {:induction false} ChildPathsComplete(n: Node, i: nat, q: Path)
    requires ValidPath(n, q) && q != [] && i <= q[0]
    ensures q in ChildPaths(n, i)
    decreases Size(n), 0, |Children(n)| - i
  {
    ChildSmaller(n, i);
    if q[0] == i {
      var c := Children(n)[i];
      AllPathsComplete(c, q[1..]);
      var k :| 0 <= k < |AllPaths(c)| && AllPaths(c)[k] == q[1..];
      HeadThenRest(q);
      assert Under(i, AllPaths(c))[k] == q;
    } else {
      ChildPathsComplete(n, i + 1, q);
    }
  }

  // ---- the order of the walk ----

  /** Document (pre-)order: a node comes before the nodes inside it, and the
      nodes of an earlier child before those of a later child. */
  predicate Before(p: Path, q: Path) {
    || p < q
    || exists l :: 0 <= l < |p| && l < |q| && p[..l] == q[..l] && p[l] < q[l]
  }

  /** The positions of `ps` come in document order. */
  predicate InDocumentOrder(ps: seq<Path>) {
    forall a, b :: 0 <= a < |ps| && 0 <= b < |ps| && Before(ps[a], ps[b]) ==> a < b
  }

  /** The walk is in document order, as `DescendantNodes()` is. */
  lemma {:induction false} AllPathsInOrder(n: Node)
    ensures InDocumentOrder(AllPaths(n))
    decreases Size(n), 1, 0
  {
    var ps := AllPaths(n);
    var cs := ChildPaths(n, 0);
    ChildPathsInOrder(n, 0);
    assert ps == [[]] + cs;
    forall a, b | 0 <= a < |ps| && 0 <= b < |ps| && Before(ps[a], ps[b]) ensures a < b {
      NothingBeforeRoot(ps[a]);
      if a > 0 && b > 0 {
        assert ps[a] == cs[a - 1] && ps[b] == cs[b - 1];
      }
    }
  }

  lemma {:induction false} ChildPathsInOrder(n: Node, i: nat)
    ensures InDocumentOrder(ChildPaths(n, i))
    decreases Size(n), 0, |Children(n)| - i
  {
    if i < |Children(n)| {
      ChildSmaller(n, i);
      var c := Children(n)[i];
      var below := AllPaths(c);
      var u := Under(i, below);
      var rest := ChildPaths(n, i + 1);
      var cs := ChildPaths(n, i);
      assert cs == u + rest;
      AllPathsInOrder(c);
      ChildPathsInOrder(n, i + 1);
      ChildPathsHeads(n, i + 1);
      forall a, b | 0 <= a < |cs| && 0 <= b < |cs| && Before(cs[a], cs[b]) ensures a < b {
        if a < |u| && b < |u| {
          assert cs[a] == [i] + below[a] && cs[b] == [i] + below[b];
          BeforeBelowHead(i, below[a], below[b]);
        } else if a >= |u| && b >= |u| {
          assert cs[a] == rest[a - |u|] && cs[b] == rest[b - |u|];
        } else if b < |u| {
          assert cs[a] == rest[a - |u|] && rest[a - |u|] in rest;
          assert cs[b] == [i] + below[b];
          BeforeHeads(cs[a], cs[b]);
        }
      }
    }
  }

  /** The positions inside children `i`, `i + 1`, ... start with a child index of at least `i`. */
  lemma {:induction false} ChildPathsHeads(n: Node, i: nat)
    ensures forall p :: p in ChildPaths(n, i) ==> p != [] && p[0] >= i
    decreases |Children(n)| - i
  {
    if i < |Children(n)| {
      ChildSmaller(n, i);
      var u := Under(i, AllPaths(Children(n)[i]));
      ChildPathsHeads(n, i + 1);
      assert ChildPaths(n, i) == u + ChildPaths(n, i + 1);
      forall p | p in u ensures p != [] && p[0] == i {
        var k :| 0 <= k < |u| && u[k] == p;
      }
    }
  }

  lemma NothingBeforeRoot(p: Path)
    ensures !Before(p, [])
  {
  }

  /** A position before another never starts with a later child. */
  lemma BeforeHeads(p: Path, q: Path)
    requires Before(p, q) && p != [] && q != []
    ensures p[0] <= q[0]
  {
    if p < q {
      assert q[..|p|] == p;
      assert q[..|p|][0] == q[0];
    } else {
      var l :| 0 <= l < |p| && l < |q| && p[..l] == q[..l] && p[l] < q[l];
      if l > 0 {
        assert p[..l][0] == p[0] && q[..l][0] == q[0];
      }
    }
  }

  /** Two positions through the same child keep their order below it. */
  lemma BeforeBelowHead(i: nat, x: Path, y: Path)
    requires Before([i] + x, [i] + y)
    ensures Before(x, y)
  {
    var p := [i] + x;
    var q := [i] + y;
    assert p[1..] == x && q[1..] == y;
    if p < q {
      PrefixThroughHead(p, q);
      assert x != y;
    } else {
      var l :| 0 <= l < |p| && l < |q| && p[..l] == q[..l] && p[l] < q[l];
      assert l > 0;
      assert p[..l] == [i] + x[..l - 1] && q[..l] == [i] + y[..l - 1];
      assert x[..l - 1] == p[..l][1..] == q[..l][1..] == y[..l - 1];
      assert x[l - 1] == p[l] && y[l - 1] == q[l];
    }
  }

  // ---- ancestors ----

  /** `AncestorsAndSelf().OfType<k>().FirstOrDefault()` from the node at `q`:
      the longest prefix of `q` whose node has kind `k`. */
  function Innermost(root: Node, q: Path, k: SyntaxKind): (r: Option<Path>)
    ensures r.Some? ==> r.value <= q && HasKind(root, r.value, k)
    ensures r.Some? ==> forall j :: |r.value| < j <= |q| ==> !HasKind(root, q[..j], k)
    ensures r.None? <==> forall j :: 0 <= j <= |q| ==> !HasKind(root, q[..j], k)
    decreases |q|
  {
    if HasKind(root, q, k) then
      assert q[..|q|] == q;
      Some(q)
    else if q == [] then
      None
    else
      var up := q[..|q| - 1];
      assert forall j :: 0 <= j <= |up| ==> up[..j] == q[..j];
      assert q[..|q|] == q;
      Innermost(root, up, k)
  }

  /** `Ancestors().OfType<k>().FirstOrDefault()`: the same search, starting at the parent. */
  function InnermostAbove(root: Node, q: Path, k: SyntaxKind): (r: Option<Path>)
    ensures r.Some? ==> r.value < q && HasKind(root, r.value, k)
    ensures r.Some? ==> forall j :: |r.value| < j < |q| ==> !HasKind(root, q[..j], k)
    ensures r.None? <==> forall j :: 0 <= j < |q| ==> !HasKind(root, q[..j], k)
  {
    if q == [] then None
    else
      var up := q[..|q| - 1];
      assert forall j :: 0 <= j <= |up| ==> up[..j] == q[..j];
      Innermost(root, up, k)
  }

  /** Some node at or above the position has kind `k`. */
  predicate SomeAncestorIs(root: Node, q: Path, k: SyntaxKind) {
    exists j :: 0 <= j <= |q| && HasKind(root, q[..j], k)
  }

  /** When nothing of kind `k` lies between `p` and `q`, the search from `q` ends strictly above `p`. */
  lemma InnermostStrictlyAbove(root: Node, q: Path, p: Path, k: SyntaxKind)
    requires p <= q
    requires forall j :: |p| <= j <= |q| ==> !HasKind(root, q[..j], k)
    ensures Innermost(root, q, k).Some? ==> Innermost(root, q, k).value < p
  {
    var r := Innermost(root, q, k);
    if r.Some? {
      var m := r.value;
      assert q[..|m|] == m && q[..|p|] == p;
      assert |m| < |p|;
      assert p[..|m|] == m;
    }
  }

  /** A node of kind `k` above `q` with none of that kind between it and `q`
      is the one the ancestor search returns. */
  lemma InnermostIs(root: Node, q: Path, p: Path, k: SyntaxKind)
    requires p <= q && HasKind(root, p, k)
    requires forall j :: |p| < j <= |q| ==> !HasKind(root, q[..j], k)
    ensures Innermost(root, q, k) == Some(p)
  {
    assert q[..|p|] == p;
    var r := Innermost(root, q, k);
    assert r.Some?;
    assert q[..|r.value|] == r.value;
    assert |r.value| == |p|;
  }
}
