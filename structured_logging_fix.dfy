/** The fix for DEMO002 that turns an interpolated log message into a message
    template with arguments: `logger.LogInformation($"User {name} logged in")`
    becomes `logger.LogInformation("User {name} logged in", name)`. */
module StructuredLoggingFix {
  import opened Wrappers
  import opened Syntax
  import opened Trees
  import opened Diagnostics
  import opened Registration
  import opened StructuredLoggingAnalyzer

  // ---- the message template ----

  /** One part of the template: a text segment as written, a hole as `{name}`;
      a hole whose expression is not an identifier fails the cast. */
  function Segment(c: Content): (r: Result<string, Exception>)
    ensures r.Success? <==> c.Text? || c.expr.IdentifierName?
    ensures r.Failure? ==> r.error == InvalidCast
    ensures c.Text? ==> r == Success(c.text)
    ensures c.Hole? && c.expr.IdentifierName? ==> r == Success("{" + c.expr.id.text + "}")
  {
    match c
    case Text(t) => Success(t)
    case Hole(e, _, _) => if e.IdentifierName? then Success("{" + e.id.text + "}") else Failure(InvalidCast)
  }

  /** `string.Join("", contents.Select(...))`: the segments one after the other. */
  function Template(cs: seq<Content>): (r: Result<string, Exception>)
    ensures r.Success? <==> forall e :: e in HoleExprs(cs) ==> e.IdentifierName?
    ensures r.Failure? ==> r.error == InvalidCast
    decreases |cs|
  {
    if cs == [] then Success("")
    else
      match Segment(cs[0])
      case Failure(e) => Failure(e)
      case Success(head) =>
        match Template(cs[1..])
        case Failure(e) => Failure(e)
        case Success(tail) => Success(head + tail)
  }

  /** The template of one part is that part's segment. */
  lemma TemplateOfOne(c: Content)
    ensures Template([c]) == Segment(c)
  {
    assert [c][1..] == [];
    if Segment(c).Success? {
      assert Segment(c).value + "" == Segment(c).value;
    }
  }

  /** Joining is concatenation: the template of two runs of contents is the first
      run's template followed by the second's. */
  lemma {:induction false} TemplateAppend(a: seq<Content>, b: seq<Content>)
    requires Template(a).Success? && Template(b).Success?
    ensures Template(a + b) == Success(Template(a).value + Template(b).value)
    decreases |a|
  {
    if a == [] {
      assert a + b == b;
      assert Template(a) == Success("");
      assert "" + Template(b).value == Template(b).value;
    } else {
      assert Segment(a[0]).Success? && Template(a[1..]).Success? &&
             Template(a).value == Segment(a[0]).value + Template(a[1..]).value by {
        TemplateFirst(a);
      }
      var head, rest, tail := Segment(a[0]).value, Template(a[1..]).value, Template(b).value;
      assert Template(a[1..] + b) == Success(rest + tail) by {
        TemplateAppend(a[1..], b);
      }
      assert Template(a + b) == Success(head + (rest + tail)) by {
        AppendAfterHead(a, b);
        TemplateFirst(a + b);
      }
      AppendAssociates(head, rest, tail);
    }
  }

  lemma AppendAssociates<T>(x: seq<T>, y: seq<T>, z: seq<T>)
    ensures x + (y + z) == (x + y) + z
  {
  }

  /** A successful template is its first segment followed by the template of the rest. */
  lemma TemplateFirst(cs: seq<Content>)
    requires cs != []
    ensures Template(cs).Success? <==> Segment(cs[0]).Success? && Template(cs[1..]).Success?
    ensures Template(cs).Success? ==> Template(cs).value == Segment(cs[0]).value + Template(cs[1..]).value
  {
  }

  /** The names of identifier holes, in order. */
  function Names(es: seq<Node>): (names: seq<string>)
    requires forall e :: e in es ==> e.IdentifierName?
    ensures |names| == |es|
    ensures forall i :: 0 <= i < |es| ==> names[i] == es[i].id.text
  {
    if es == [] then [] else [es[0].id.text] + Names(es[1..])
  }

  /** The holes with their alignment and format clauses removed. */
  function Stripped(cs: seq<Content>): (r: seq<Content>)
    ensures |r| == |cs|
    ensures HoleExprs(r) == HoleExprs(cs)
    decreases |cs|
  {
    if cs == [] then []
    else
      var c := match cs[0] case Text(t) => Text(t) case Hole(e, _, _) => Hole(e, None, None);
      [c] + Stripped(cs[1..])
  }

  /** The template does not depend on alignment (`{x,10}`) or format (`{x:N2}`) clauses:
      it drops them. */
  lemma {:induction false} TemplateIgnoresAlignmentAndFormat(cs: seq<Content>)
    ensures Template(cs) == Template(Stripped(cs))
    decreases |cs|
  {
    if cs != [] {
      TemplateIgnoresAlignmentAndFormat(cs[1..]);
      assert Stripped(cs)[1..] == Stripped(cs[1..]);
    }
  }

  // ---- reading a template back ----

  predicate NoBraces(s: string) {
    forall i :: 0 <= i < |s| ==> s[i] != '{' && s[i] != '}'
  }

  /** The position of the first `}` at or after `i`, or the end of `s`. */
  function CloseBrace(s: string, i: nat): (k: nat)
    requires i <= |s|
    ensures i <= k <= |s|
    ensures k < |s| ==> s[k] == '}'
    ensures forall j :: i <= j < k ==> s[j] != '}'
    decreases |s| - i
  {
    if i == |s| || s[i] == '}' then i else CloseBrace(s, i + 1)
  }

  /** The placeholder names of a message template as the logging library reads one
      without escaped braces: the text between each `{` and the next `}`, in order. */
  function Placeholders(s: string): seq<string>
    decreases |s|
  {
    if s == [] then []
    else if s[0] == '{' then
      var k := CloseBrace(s, 1);
      if k < |s| then [s[1..k]] + Placeholders(s[k + 1..]) else []
    else Placeholders(s[1..])
  }

  lemma {:induction false} PlaceholdersSkipText(t: string, rest: string)
    requires NoBraces(t)
    ensures Placeholders(t + rest) == Placeholders(rest)
    decreases |t|
  {
    if t != [] {
      assert (t + rest)[0] == t[0] && (t + rest)[1..] == t[1..] + rest;
      PlaceholdersSkipText(t[1..], rest);
    } else {
      assert t + rest == rest;
    }
  }

  lemma PlaceholdersReadHole(name: string, rest: string)
    requires NoBraces(name)
    ensures Placeholders("{" + name + "}" + rest) == [name] + Placeholders(rest)
  {
    var s := "{" + name + "}" + rest;
    var k := CloseBrace(s, 1);
    assert s[|name| + 1] == '}';
    assert forall j :: 1 <= j < |name| + 1 ==> s[j] == name[j - 1];
    assert k == |name| + 1;
    assert s[1..k] == name;
    assert s[k + 1..] == rest;
  }

  /** Template and arguments agree: when no text segment and no name holds a brace, the
      template's placeholders name the holes' identifiers in order, which are exactly
      the arguments the fix appends. */
  lemma {:induction false} TemplateNamesTheHoles(cs: seq<Content>)
    requires forall e :: e in HoleExprs(cs) ==> e.IdentifierName? && NoBraces(e.id.text)
    requires forall i :: 0 <= i < |cs| && cs[i].Text? ==> NoBraces(cs[i].text)
    ensures Template(cs).Success?
    ensures Placeholders(Template(cs).value) == Names(HoleExprs(cs))
    decreases |cs|
  {
    if cs == [] {
    } else {
      assert forall i :: 0 <= i < |cs[1..]| ==> cs[1..][i] == cs[i + 1];
      assert forall e :: e in HoleExprs(cs[1..]) ==> e in HoleExprs(cs);
      TemplateNamesTheHoles(cs[1..]);
      var tail := Template(cs[1..]).value;
      match cs[0]
      case Text(t) =>
        PlaceholdersSkipText(t, tail);
        assert HoleExprs(cs) == HoleExprs(cs[1..]);
      case Hole(e, _, _) =>
        assert HoleExprs(cs) == [e] + HoleExprs(cs[1..]);
        assert "{" + e.id.text + "}" + tail == ("{" + e.id.text + "}") + tail;
        PlaceholdersReadHole(e.id.text, tail);
        assert Names(HoleExprs(cs)) == [e.id.text] + Names(HoleExprs(cs[1..]));
    }
  }

  // ---- the fix ----

  /** The action registered for a finding: the interpolated string to convert
      (the nearest one at or around the finding's first token). */
  function FixTarget(root: Option<Node>, diagnostics: seq<Finding>): Result<Option<Path>, Exception> {
    EnclosingTarget(root, diagnostics, InterpolatedStringKind)
  }

  /** `ConvertToStructuredLoggingAsync` as written: in the invocation nearest above the
      interpolated string, argument 0 becomes the template literal and the holes'
      expressions are appended. */
  function Convert(root: Node, s: Path): (r: Result<Node, Exception>)
    requires HasKind(root, s, InterpolatedStringKind)
    ensures InnermostAbove(root, s, InvocationKind).None? ==> r == Failure(NoElements)
    ensures InnermostAbove(root, s, InvocationKind).Some? ==>
              var inv := InnermostAbove(root, s, InvocationKind).value;
              var call := At(root, inv).value;
              var cs := At(root, s).value.contents;
              && (Template(cs).Failure? ==> r == Failure(InvalidCast))
              && (Template(cs).Success? && call.args == [] ==> r == Failure(IndexOutOfRange))
              && (Template(cs).Success? && call.args != [] ==>
                    && r.Success?
                    && At(r.value, inv) ==
                         Some(Invocation(call.callee, [StringLiteral(Template(cs).value)] + call.args[1..] + HoleExprs(cs)))
                    && forall q :: Disjoint(inv, q) ==> At(r.value, q) == At(root, q))
  {
    match InnermostAbove(root, s, InvocationKind)
    case None => Failure(NoElements)
    case Some(inv) =>
      var interpolatedString := At(root, s).value;
      var invocation := At(root, inv).value;
      match Template(interpolatedString.contents)
      case Failure(e) => Failure(e)
      case Success(structuredTemplate) =>
        var originalArguments := invocation.args;
        if originalArguments == [] then Failure(IndexOutOfRange)
        else
          var newArguments := originalArguments[0 := StringLiteral(structuredTemplate)] + HoleExprs(interpolatedString.contents);
          assert newArguments == [StringLiteral(structuredTemplate)] + originalArguments[1..] + HoleExprs(interpolatedString.contents);
          var newInvocation := Invocation(invocation.callee, newArguments);
          ReplaceAtTarget(root, inv, newInvocation);
          ReplaceAtFrameAll(root, inv, newInvocation);
          Success(ReplaceAt(root, inv, newInvocation))
  }

  /** Which argument of the invocation at `inv` sits at `s`, if any. */
  function ArgumentIndex(inv: Path, s: Path): (r: Option<nat>)
    ensures forall k: nat :: s == ArgumentPath(inv, k) ==> r == Some(k)
    ensures r.Some? ==> s == ArgumentPath(inv, r.value)
  {
    ArgumentPathParts(inv, s);
    if |s| == |inv| + 1 && s[..|inv|] == inv && s[|inv|] >= 1 then
      assert s == inv + [s[|inv|]];
      Some(s[|inv|] - 1)
    else None
  }

  lemma ArgumentPathParts(inv: Path, s: Path)
    ensures forall k: nat :: s == ArgumentPath(inv, k) ==>
              |s| == |inv| + 1 && s[..|inv|] == inv && s[|inv|] == k + 1
  {
    forall k: nat | s == ArgumentPath(inv, k) ensures |s| == |inv| + 1 && s[..|inv|] == inv && s[|inv|] == k + 1 {
      assert s == inv + [k + 1];
    }
  }

  /** `Convert` rebuilds the ancestors of the call around the new call and keeps
      their own tokens. */
  lemma ConvertKeepsAncestors(root: Node, s: Path)
    requires HasKind(root, s, InterpolatedStringKind)
    requires Convert(root, s).Success?
    ensures InnermostAbove(root, s, InvocationKind).Some?
    ensures AncestorsKept(root, Convert(root, s).value, InnermostAbove(root, s, InvocationKind).value)
  {
    var inv := InnermostAbove(root, s, InvocationKind).value;
    var cs := At(root, s).value.contents;
    var call := At(root, inv).value;
    var newInvocation := Invocation(call.callee, call.args[0 := StringLiteral(Template(cs).value)] + HoleExprs(cs));
    assert Convert(root, s) == Success(ReplaceAt(root, inv, newInvocation));
    ReplaceAtKeepsAncestors(root, inv, newInvocation);
  }

  /** The conversion as evidently intended: the interpolated string is replaced by the
      template in its own argument position; a string that is not an argument of the
      invocation nearest above it is left alone. */
  function ConvertCorrected(root: Node, s: Path): (r: Result<Node, Exception>)
    requires HasKind(root, s, InterpolatedStringKind)
    ensures InnermostAbove(root, s, InvocationKind).None? ==> r == Failure(NoElements)
    ensures InnermostAbove(root, s, InvocationKind).Some? ==>
              var inv := InnermostAbove(root, s, InvocationKind).value;
              var call := At(root, inv).value;
              var cs := At(root, s).value.contents;
              var k := ArgumentIndex(inv, s);
              && (Template(cs).Failure? ==> r == Failure(InvalidCast))
              && (Template(cs).Success? && (k.None? || k.value >= |call.args|) ==> r == Success(root))
              && (Template(cs).Success? && k.Some? && k.value < |call.args| ==>
                    && r.Success?
                    && At(r.value, inv) ==
                         Some(Invocation(call.callee, call.args[k.value := StringLiteral(Template(cs).value)] + HoleExprs(cs)))
                    && (forall q :: Disjoint(inv, q) ==> At(r.value, q) == At(root, q))
                    && AncestorsKept(root, r.value, inv))
  {
    match InnermostAbove(root, s, InvocationKind)
    case None => Failure(NoElements)
    case Some(inv) =>
      var interpolatedString := At(root, s).value;
      var invocation := At(root, inv).value;
      match Template(interpolatedString.contents)
      case Failure(e) => Failure(e)
      case Success(structuredTemplate) =>
        match ArgumentIndex(inv, s)
        case None => Success(root)
        case Some(k) =>
          if k < |invocation.args| then
            var newArguments := invocation.args[k := StringLiteral(structuredTemplate)] + HoleExprs(interpolatedString.contents);
            var newInvocation := Invocation(invocation.callee, newArguments);
            ReplaceAtTarget(root, inv, newInvocation);
            ReplaceAtFrameAll(root, inv, newInvocation);
            ReplaceAtKeepsAncestors(root, inv, newInvocation);
            Success(ReplaceAt(root, inv, newInvocation))
          else Success(root)
  }

  // ---- the fix and the rule's findings ----

  /** The rule reports the log call at `at` on its argument `k`. */
  predicate ReportsArgument(root: Node, at: Path, sem: SemanticModel, f: Finding, k: nat) {
    && At(root, at).Some? && At(root, at).value.Invocation?
    && k < |At(root, at).value.args| && At(root, at).value.args[k].InterpolatedString?
    && Analyze(At(root, at).value, at, sem) == Reported(f)
    && f.location == NodeSpan(ArgumentPath(at, k))
  }

  /** Every finding of the rule is on one of the call's arguments. */
  lemma ReportedArgument(root: Node, at: Path, sem: SemanticModel, f: Finding)
    requires At(root, at).Some? && Analyze(At(root, at).value, at, sem) == Reported(f)
    ensures exists k: nat :: ReportsArgument(root, at, sem, f, k)
  {
    var n := At(root, at).value;
    var k: nat :| k < |n.args| && Qualifies(n, at, sem, k) && f == Report(Rule, NodeSpan(ArgumentPath(at, k)), []);
    var g := Report(Rule, NodeSpan(ArgumentPath(at, k)), []);
    assert g.location == NodeSpan(ArgumentPath(at, k));
    assert f == g;
    assert ReportsArgument(root, at, sem, f, k);
  }

  /** For the rule's own finding, the fix converts the reported argument, and the
      invocation it rewrites is the log call. */
  lemma FindingTargetsArgument(root: Node, at: Path, sem: SemanticModel, f: Finding, k: nat)
    requires ReportsArgument(root, at, sem, f, k)
    ensures FixTarget(Some(root), [f]) == Success(Some(ArgumentPath(at, k)))
    ensures HasKind(root, ArgumentPath(at, k), InterpolatedStringKind)
    ensures InnermostAbove(root, ArgumentPath(at, k), InvocationKind) == Some(at)
    ensures ArgumentIndex(at, ArgumentPath(at, k)) == Some(k)
  {
    var s := ArgumentPath(at, k);
    ArgumentAt(root, at, k);
    assert LeadingTokenOwner(At(root, s).value) == [];
    assert s + [] == s;
    assert TokenParent(root, f.location) == Some(s);
    InnermostIs(root, s, s, InterpolatedStringKind);
    assert s[..|s| - 1] == at;
    InnermostIs(root, at, at, InvocationKind);
  }

  /** With the correction, the reported argument itself becomes the template literal, the
      other arguments stay in place, and the holes' expressions are appended. */
  lemma CorrectedConvertsReportedArgument(root: Node, at: Path, sem: SemanticModel, f: Finding, k: nat)
    requires ReportsArgument(root, at, sem, f, k)
    requires Template(At(root, at).value.args[k].contents).Success?
    ensures HasKind(root, ArgumentPath(at, k), InterpolatedStringKind)
    ensures var call := At(root, at).value;
            var cs := call.args[k].contents;
            var r := ConvertCorrected(root, ArgumentPath(at, k));
            && r.Success?
            && At(r.value, at) == Some(Invocation(call.callee, call.args[k := StringLiteral(Template(cs).value)] + HoleExprs(cs)))
            && At(r.value, ArgumentPath(at, k)) == Some(StringLiteral(Template(cs).value))
            && (forall q :: Disjoint(at, q) ==> At(r.value, q) == At(root, q))
            && AncestorsKept(root, r.value, at)
  {
    FindingTargetsArgument(root, at, sem, f, k);
    ArgumentAt(root, at, k);
    var r := ConvertCorrected(root, ArgumentPath(at, k)).value;
    ArgumentAt(r, at, k);
  }

  /** As written, a finding on argument `k > 0` (`logger.Log(level, $"...")`): argument 0
      is overwritten by the template and the interpolated string stays where it was. */
  lemma AsWrittenKeepsInterpolatedArgument(root: Node, at: Path, sem: SemanticModel, f: Finding, k: nat)
    requires ReportsArgument(root, at, sem, f, k) && k > 0
    requires Template(At(root, at).value.args[k].contents).Success?
    ensures HasKind(root, ArgumentPath(at, k), InterpolatedStringKind)
    ensures var call := At(root, at).value;
            var r := Convert(root, ArgumentPath(at, k));
            && r.Success?
            && At(r.value, ArgumentPath(at, k)) == Some(call.args[k])
            && At(r.value, ArgumentPath(at, 0)) == Some(StringLiteral(Template(call.args[k].contents).value))
  {
    FindingTargetsArgument(root, at, sem, f, k);
    ArgumentAt(root, at, k);
    var call := At(root, at).value;
    var s := ArgumentPath(at, k);
    var cs := call.args[k].contents;
    assert At(root, s).value.contents == cs;
    var lit := StringLiteral(Template(cs).value);
    var args := [lit] + call.args[1..] + HoleExprs(cs);
    var r := Convert(root, s).value;
    assert At(r, at) == Some(Invocation(call.callee, args));
    FirstOverwritten(r, at, call, lit, HoleExprs(cs), k);
  }

  /** In a call whose argument 0 was overwritten by `lit`, argument `k > 0` is the old one. */
  lemma FirstOverwritten(r: Node, at: Path, call: Node, lit: Node, holes: seq<Node>, k: nat)
    requires call.Invocation? && 0 < k < |call.args|
    requires At(r, at) == Some(Invocation(call.callee, [lit] + call.args[1..] + holes))
    ensures At(r, ArgumentPath(at, k)) == Some(call.args[k])
    ensures At(r, ArgumentPath(at, 0)) == Some(lit)
  {
    var args := [lit] + call.args[1..] + holes;
    assert args[k] == call.args[k] && args[0] == lit;
    ArgumentAt(r, at, k);
    ArgumentAt(r, at, 0);
  }

  /** When the interpolated string is argument 0, as in the demo project's
      `_logger.LogInformation($"User {userName} logged in")`, the fix as written and
      the corrected one agree. */
  lemma AgreeOnFirstArgument(root: Node, at: Path, sem: SemanticModel, f: Finding)
    requires ReportsArgument(root, at, sem, f, 0)
    ensures HasKind(root, ArgumentPath(at, 0), InterpolatedStringKind)
    ensures Convert(root, ArgumentPath(at, 0)) == ConvertCorrected(root, ArgumentPath(at, 0))
  {
    FindingTargetsArgument(root, at, sem, f, 0);
    var call := At(root, at).value;
    var cs := call.args[0].contents;
    ArgumentAt(root, at, 0);
    var s := ArgumentPath(at, 0);
    assert At(root, s).value.contents == cs;
    if Template(cs).Success? {
      var lit := StringLiteral(Template(cs).value);
      var rewritten := Invocation(call.callee, call.args[0 := lit] + HoleExprs(cs));
      assert Convert(root, s) == Success(ReplaceAt(root, at, rewritten));
      assert ConvertCorrected(root, s) == Success(ReplaceAt(root, at, rewritten));
    }
  }
}
