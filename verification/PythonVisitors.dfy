/** The visitors that check format(), HTML() and Text() calls, concatenations and interpolations in Python code
    (scripts/safe_template_linter.py:1420-1740). */
module PythonVisitors {
  import opened Text

  /** A node of the syntax tree; `id` is the identity of the object. The children are in field order:
      a call's are its function and then its arguments, an attribute's is the value it is taken of, an operation's
      are its left and its right side. The nodes of contexts and operators, which the parser shares between trees,
      are not among them: no visitor does anything with them. */
  datatype Node = Node(id: nat, kind: Kind, children: seq<Node>)

  datatype Kind =
    | Call
    | Attribute(attr: string)
    | Name(name: string)
    | Str(text: string)
    | BinOp(op: Operator)
    | FunctionDef(def: string)
    | Other

  datatype Operator = Add | Mod | OtherOperator

  function Ids(n: Node): set<nat>
    decreases n, 1
  {
    {n.id} + IdsOf(n.children)
  }

  function IdsOf(nodes: seq<Node>): set<nat>
    decreases nodes, 0
  {
    if nodes == [] then {} else Ids(nodes[0]) + IdsOf(nodes[1..])
  }

  /** No object occurs twice in the tree, which holds for the objects that are modelled. */
  predicate Proper(n: Node)
    decreases n, 1
  {
    n.id !in IdsOf(n.children) && ProperAll(n.children)
  }

  predicate ProperAll(nodes: seq<Node>)
    decreases nodes, 0
  {
    nodes != [] ==> Proper(nodes[0]) && ProperAll(nodes[1..]) && Ids(nodes[0]) !! IdsOf(nodes[1..])
  }

  // ---------- Kinds of nodes ----------

  predicate IsFormatCall(n: Node) {
    n.kind.Call? && n.children != [] && n.children[0].kind == Attribute("format") && |n.children[0].children| == 1
  }

  /** The left-hand side of a format() call. */
  function Caller(n: Node): Node
    requires IsFormatCall(n)
  {
    n.children[0].children[0]
  }

  /** HTML(...) or Text(...). */
  predicate IsWrapper(n: Node) {
    n.kind.Call? && n.children != [] && n.children[0].kind in {Name("HTML"), Name("Text")}
  }

  /** Definitions of __repr__ are skipped by all visitors. */
  predicate IsRepr(n: Node) {
    n.kind == FunctionDef("__repr__")
  }

  /** A string with '<' and without the start of a named group. */
  predicate LooksLikeHtml(n: Node) {
    n.kind.Str? && Find(n.kind.text, "(?P<", 0).None? && Find(n.kind.text, "<", 0).Some?
  }

  predicate IsAlphanumeric(c: char) {
    'a' <= c <= 'z' || 'A' <= c <= 'Z' || '0' <= c <= '9'
  }

  /** `&[#]?[a-zA-Z0-9]+;` matches at index i. */
  predicate IsEntityAt(t: string, i: nat) {
    i < |t| && t[i] == '&'
    && (var name := if i + 1 < |t| && t[i + 1] == '#' then t[i + 2..] else t[i + 1..];
        var n := Span(name, IsAlphanumeric);
        0 < n < |name| && name[n] == ';')
  }

  /** A string with an HTML entity in it. */
  predicate HasEntity(n: Node) {
    n.kind.Str? && exists i :: 0 <= i < |n.kind.text| && IsEntityAt(n.kind.text, i)
  }

  // ---------- Paths ----------

  /** `path` leads from n to a node: each entry is the position of a child. */
  predicate IsPath(n: Node, path: seq<nat>)
    decreases |path|
  {
    path != [] ==> path[0] < |n.children| && IsPath(n.children[path[0]], path[1..])
  }

  function NodeAt(n: Node, path: seq<nat>): Node
    requires IsPath(n, path)
    decreases |path|
  {
    if path == [] then n else NodeAt(n.children[path[0]], path[1..])
  }

  /** The proper ancestors of the node at the end of the path, from n downwards. */
  function Ancestors(n: Node, path: seq<nat>): (r: seq<Node>)
    requires IsPath(n, path)
    ensures |r| == |path|
    decreases |path|
  {
    if path == [] then [] else [n] + Ancestors(n.children[path[0]], path[1..])
  }

  /** The node at the end of the path is not inside a definition of __repr__. */
  ghost predicate Visible(n: Node, path: seq<nat>)
    requires IsPath(n, path)
  {
    forall a :: a in Ancestors(n, path) ==> !IsRepr(a)
  }

  // ---------- Occurrences ----------

  /** What is looked for below a node. */
  datatype Wanted = Wrapper | FormatAttribute | HtmlString

  predicate Matches(n: Node, wanted: Wanted) {
    match wanted
    case Wrapper => IsWrapper(n)
    case FormatAttribute => n.kind == Attribute("format")
    case HtmlString => LooksLikeHtml(n)
  }

  /** The node, or a node below it and not inside a definition of __repr__, is wanted. */
  ghost predicate Occurs(n: Node, wanted: Wanted) {
    exists path :: IsPath(n, path) && Visible(n, path) && Matches(NodeAt(n, path), wanted)
  }

  ghost predicate OccursIn(nodes: seq<Node>, wanted: Wanted) {
    exists i :: 0 <= i < |nodes| && Occurs(nodes[i], wanted)
  }

  lemma {:induction false} OccursFurther(n: Node, wanted: Wanted)
    requires Occurs(n, wanted) && !Matches(n, wanted)
    ensures !IsRepr(n) && OccursIn(n.children, wanted)
  {
    var path :| IsPath(n, path) && Visible(n, path) && Matches(NodeAt(n, path), wanted);
    hide Matches, IsRepr;
    assert n in Ancestors(n, path);
    assert Visible(n.children[path[0]], path[1..]);
    assert Occurs(n.children[path[0]], wanted);
  }

  lemma {:induction false} OccursBelow(n: Node, i: nat, wanted: Wanted)
    requires !IsRepr(n) && i < |n.children| && Occurs(n.children[i], wanted)
    ensures Occurs(n, wanted)
  {
    hide Matches, IsRepr;
    var child := n.children[i];
    var path :| IsPath(child, path) && Visible(child, path) && Matches(NodeAt(child, path), wanted);
    var longer := [i] + path;
    assert longer[1..] == path;
    assert IsPath(n, longer) && Visible(n, longer) && NodeAt(n, longer) == NodeAt(child, path);
  }

  lemma {:induction false} OccursStep(n: Node, wanted: Wanted)
    ensures Occurs(n, wanted) <==> Matches(n, wanted) || (!IsRepr(n) && OccursIn(n.children, wanted))
  {
    if Matches(n, wanted) {
      assert IsPath(n, []) && Visible(n, []) && NodeAt(n, []) == n;
    } else if Occurs(n, wanted) {
      OccursFurther(n, wanted);
    } else if !IsRepr(n) {
      forall i: nat | i < |n.children| ensures !Occurs(n.children[i], wanted) {
        if Occurs(n.children[i], wanted) {
          OccursBelow(n, i, wanted);
        }
      }
    }
  }

  // ---------- FormatInterpolateVisitor ----------

  /** What the visitor finds from a node on, once it knows the caller `skip` of the outermost format() call:
      it looks at the caller itself but not below it. */
  ghost predicate FoundSkipping(n: Node, skip: nat)
    decreases n
  {
    IsWrapper(n)
    || (!IsRepr(n) && n.id != skip && exists i :: 0 <= i < |n.children| && FoundSkipping(n.children[i], skip))
  }

  class FormatInterpolateVisitor {
    var interpolates: bool
    var callerId: Option<nat>

    constructor ()
      ensures !interpolates && callerId == None
    {
      interpolates, callerId := false, None;
    }

    /** The caller's identity, known beforehand or set when the format() call itself is visited. */
    function CallerId(node: Node): nat
      requires callerId.Some? || IsFormatCall(node)
      reads this
    {
      if callerId.Some? then callerId.value else Caller(node).id
    }

    /** Stopping early, once a call has been found, does not change what is reported in the end. */
    method Visit(node: Node)
      requires callerId.Some? || IsFormatCall(node)
      modifies this
      ensures callerId == Some(old(CallerId(node)))
      ensures interpolates == (old(interpolates) || FoundSkipping(node, old(CallerId(node))))
      decreases node, 2
    {
      if node.kind.Call? {
        VisitCall(node);
      } else if !IsRepr(node) {
        GenericVisit(node);
      }
    }

    method VisitCall(node: Node)
      requires node.kind.Call? && (callerId.Some? || IsFormatCall(node))
      modifies this
      ensures callerId == Some(old(CallerId(node)))
      ensures interpolates == (old(interpolates) || FoundSkipping(node, old(CallerId(node))))
      decreases node, 1
    {
      if IsFormatCall(node) {
        if callerId.None? {
          callerId := Some(Caller(node).id);
        }
      } else if IsWrapper(node) {
        interpolates := true;
      }
      GenericVisit(node);
    }

    method GenericVisit(node: Node)
      requires callerId.Some? && !IsRepr(node)
      modifies this
      ensures callerId == old(callerId)
      ensures old(interpolates) ==> interpolates
      ensures !old(interpolates) && !IsWrapper(node) ==> interpolates == FoundSkipping(node, callerId.value)
      decreases node, 0
    {
      if !interpolates {
        if callerId != Some(node.id) {
          for i := 0 to |node.children|
            invariant callerId == old(callerId)
            invariant interpolates == exists j :: 0 <= j < i && FoundSkipping(node.children[j], callerId.value)
          {
            Visit(node.children[i]);
          }
        }
      }
    }
  }

  lemma {:induction false} FoundWithoutSkip(n: Node, skip: nat)
    requires skip !in Ids(n)
    ensures FoundSkipping(n, skip) == Occurs(n, Wrapper)
    decreases n
  {
    OccursStep(n, Wrapper);
    forall i | 0 <= i < |n.children|
      ensures FoundSkipping(n.children[i], skip) == Occurs(n.children[i], Wrapper)
    {
      ChildIds(n.children, i);
      FoundWithoutSkip(n.children[i], skip);
    }
  }

  lemma {:induction false} ChildIds(nodes: seq<Node>, i: nat)
    requires i < |nodes|
    ensures Ids(nodes[i]) <= IdsOf(nodes)
  {
    if i > 0 {
      ChildIds(nodes[1..], i - 1);
    }
  }

  lemma {:induction false} ProperChildren(nodes: seq<Node>, i: nat, j: nat)
    requires ProperAll(nodes) && i < j < |nodes|
    ensures Ids(nodes[i]) !! Ids(nodes[j])
  {
    if i == 0 {
      ChildIds(nodes[1..], j - 1);
    } else {
      ProperChildren(nodes[1..], i - 1, j - 1);
    }
  }

  /** On a format() call the visitor finds what it should: an HTML() or Text() call as the caller,
      or one anywhere in the arguments. */
  lemma {:induction false} InterpolatesMeans(n: Node)
    requires Proper(n) && IsFormatCall(n)
    ensures FoundSkipping(n, Caller(n).id) <==> IsWrapper(Caller(n)) || OccursIn(n.children[1..], Wrapper)
  {
    var func, skip := n.children[0], Caller(n).id;
    assert skip in IdsOf(func.children) && skip in IdsOf(n.children) by {
      ChildIds(n.children, 0);
      ChildIds(func.children, 0);
    }
    assert Proper(func);
    assert FoundSkipping(func, skip) <==> IsWrapper(Caller(n));
    forall i | 1 <= i < |n.children|
      ensures FoundSkipping(n.children[i], skip) == Occurs(n.children[1..][i - 1], Wrapper)
    {
      ProperChildren(n.children, 0, i);
      FoundWithoutSkip(n.children[i], skip);
    }
  }

  // ---------- Reports ----------

  /** The rules, each reported for a node. */
  datatype Rule =
    | RequiresHtmlOrText
    | CloseBeforeFormat
    | DeprecatedDisplayName
    | InterpolateHtml
    | ConcatHtml
    | WrapHtml
    | HtmlEntities

  datatype Report = Report(rule: Rule, id: nat)

  /** The two lists of strings that HtmlStringVisitor keeps. */
  datatype What = Html | Entity

  /** The visitors that report: AllNodeVisitor, OuterFormatVisitor and each list of HtmlStringVisitor. */
  datatype Visitor = AllNodes | OuterFormat | Strings(what: What, skipWrapped: bool)

  /** What OuterFormatVisitor uses. */
  const UNWRAPPED_HTML := Strings(Html, true)

  /** The rule under which a string of a list is reported, if it belongs there. */
  predicate IsListed(what: What, n: Node) {
    if what.Html? then LooksLikeHtml(n) else HasEntity(n)
  }

  function RuleOf(what: What): Rule {
    if what.Html? then WrapHtml else HtmlEntities
  }

  /** The rule that a concatenation or an interpolation breaks when a string with HTML occurs in it. */
  function OperationRule(n: Node): Option<Rule> {
    if !n.kind.BinOp? || |n.children| != 2 then None
    else
      match n.kind.op
      case Mod => Some(InterpolateHtml)
      case Add => Some(ConcatHtml)
      case OtherOperator => None
  }

  const DEPRECATED_NAME := Attribute("display_name_with_default_escaped")

  /** A format() call that breaks the rule: something in its arguments is wrapped but its left-hand side is not. */
  ghost predicate NeedsWrapper(n: Node) {
    IsFormatCall(n) && !IsWrapper(Caller(n)) && OccursIn(n.children[1..], Wrapper)
  }

  /** What a visitor reports for a node itself. */
  ghost function Local(v: Visitor, n: Node): seq<Report> {
    match v
    case AllNodes =>
      if NeedsWrapper(n) then [Report(RequiresHtmlOrText, n.id)]
      else if IsWrapper(n) && Occurs(n, FormatAttribute) then [Report(CloseBeforeFormat, n.id)]
      else if n.kind == DEPRECATED_NAME then [Report(DeprecatedDisplayName, n.id)]
      else if OperationRule(n).Some? && OccursIn(n.children, HtmlString) then [Report(OperationRule(n).value, n.id)]
      else []
    case OuterFormat => []
    case Strings(what, _) => if IsListed(what, n) then [Report(RuleOf(what), n.id)] else []
  }

  /** The visitor that goes on to the children: outside definitions of __repr__ the same one, except that an
      outermost format() call hands over to the string visitor, which skips wrappers if it is told to. */
  function Onward(v: Visitor, n: Node): Option<Visitor> {
    if IsRepr(n) then None
    else if v.OuterFormat? && IsFormatCall(n) then Some(UNWRAPPED_HTML)
    else if v.Strings? && v.skipWrapped && IsWrapper(n) then None
    else Some(v)
  }

  /** Everything a visitor reports from a node on, in order. */
  ghost function Collect(v: Visitor, n: Node): seq<Report>
    decreases n, 1
  {
    Local(v, n) + if Onward(v, n).None? then [] else CollectOf(Onward(v, n).value, n.children)
  }

  ghost function CollectOf(v: Visitor, nodes: seq<Node>): seq<Report>
    decreases nodes, 0
  {
    if nodes == [] then [] else Collect(v, nodes[0]) + CollectOf(v, nodes[1..])
  }

  lemma {:induction false} CollectSplit(v: Visitor, a: seq<Node>, b: seq<Node>)
    ensures CollectOf(v, a + b) == CollectOf(v, a) + CollectOf(v, b)
  {
    if a == [] {
      assert a + b == b;
    } else {
      assert (a + b)[1..] == a[1..] + b;
      CollectSplit(v, a[1..], b);
    }
  }

  lemma {:induction false} Associative(a: seq<Report>, b: seq<Report>, c: seq<Report>)
    ensures (a + b) + c == a + (b + c)
  {
  }

  /** What was found before a node, for it and below it, in order. */
  lemma {:induction false} CollectHere(before: seq<Report>, v: Visitor, n: Node)
    requires !IsRepr(n) && Onward(v, n) == Some(v)
    ensures (before + Local(v, n)) + CollectOf(v, n.children) == before + Collect(v, n)
  {
    hide Local, CollectOf;
    Associative(before, Local(v, n), CollectOf(v, n.children));
  }

  lemma {:induction false} CollectSome(v: Visitor, nodes: seq<Node>)
    ensures CollectOf(v, nodes) != [] <==> exists i :: 0 <= i < |nodes| && Collect(v, nodes[i]) != []
  {
    hide Collect;
    if nodes != [] {
      CollectSome(v, nodes[1..]);
      assert forall i :: 0 < i < |nodes| ==> nodes[i] == nodes[1..][i - 1];
    }
  }

  /** The string visitor that skips nothing finds a string that looks like HTML if and only if there is one. */
  lemma {:induction false} FindsHtmlStrings(n: Node)
    ensures Collect(Strings(Html, false), n) != [] <==> Occurs(n, HtmlString)
    decreases n
  {
    OccursStep(n, HtmlString);
    CollectSome(Strings(Html, false), n.children);
    forall i | 0 <= i < |n.children|
      ensures Collect(Strings(Html, false), n.children[i]) != [] <==> Occurs(n.children[i], HtmlString)
    {
      FindsHtmlStrings(n.children[i]);
    }
  }

  // ---------- The visitor classes ----------

  /** ContainsFormatVisitor. */
  class ContainsFormatVisitor {
    var containsFormatCall: bool

    constructor ()
      ensures !containsFormatCall
    {
      containsFormatCall := false;
    }

    method Visit(node: Node)
      modifies this
      ensures containsFormatCall == (old(containsFormatCall) || Occurs(node, FormatAttribute))
      decreases node
    {
      OccursStep(node, FormatAttribute);
      if node.kind == Attribute("format") {
        containsFormatCall := true;
      } else if !IsRepr(node) {
        for i := 0 to |node.children|
          invariant containsFormatCall
                 == (old(containsFormatCall) || exists j :: 0 <= j < i && Occurs(node.children[j], FormatAttribute))
        {
          Visit(node.children[i]);
        }
      }
    }
  }

  class AllNodeVisitor {
    var violations: seq<Report>

    constructor ()
      ensures violations == []
    {
      violations := [];
    }

    method Visit(node: Node)
      requires Proper(node)
      modifies this
      ensures violations == old(violations) + Collect(AllNodes, node)
      decreases node, 2
    {
      if node.kind.Call? {
        VisitCall(node);
      } else if node.kind.Attribute? {
        VisitAttribute(node);
      } else if node.kind.BinOp? {
        VisitBinOp(node);
      } else {
        assert Local(AllNodes, node) == [];
        hide Local, CollectOf, Proper;
        if !IsRepr(node) {
          GenericVisit(node);
          CollectHere(old(violations), AllNodes, node);
        }
      }
    }

    method VisitAttribute(node: Node)
      requires Proper(node) && node.kind.Attribute?
      modifies this
      ensures violations == old(violations) + Collect(AllNodes, node)
      decreases node, 1
    {
      if node.kind.attr == "display_name_with_default_escaped" {
        violations := violations + [Report(DeprecatedDisplayName, node.id)];
      }
      assert violations == old(violations) + Local(AllNodes, node);
      GenericVisit(node);
      CollectHere(old(violations), AllNodes, node);
    }

    method VisitBinOp(node: Node)
      requires Proper(node) && node.kind.BinOp?
      modifies this
      ensures violations == old(violations) + Collect(AllNodes, node)
      decreases node, 1
    {
      var rule := OperationRule(node);
      if rule.Some? {
        var inLeft := HasHtmlString(node.children[0]);
        var inRight := HasHtmlString(node.children[1]);
        var hasIllegalHtmlString := inLeft || inRight;
        assert hasIllegalHtmlString <==> OccursIn(node.children, HtmlString);
        if hasIllegalHtmlString {
          violations := violations + [Report(rule.value, node.id)];
        }
      }
      assert violations == old(violations) + Local(AllNodes, node);
      GenericVisit(node);
      CollectHere(old(violations), AllNodes, node);
    }

    method VisitCall(node: Node)
      requires Proper(node) && node.kind.Call?
      modifies this
      ensures violations == old(violations) + Collect(AllNodes, node)
      decreases node, 1
    {
      if IsFormatCall(node) {
        var visitor := new FormatInterpolateVisitor();
        visitor.Visit(node);
        InterpolatesMeans(node);
        if visitor.interpolates {
          var isCallerWrapper := IsWrapper(Caller(node));
          if !isCallerWrapper {
            violations := violations + [Report(RequiresHtmlOrText, node.id)];
          }
        }
      } else if IsWrapper(node) {
        var visitor := new ContainsFormatVisitor();
        visitor.Visit(node);
        if visitor.containsFormatCall {
          violations := violations + [Report(CloseBeforeFormat, node.id)];
        }
      }
      assert violations == old(violations) + Local(AllNodes, node);
      GenericVisit(node);
      CollectHere(old(violations), AllNodes, node);
    }

    method GenericVisit(node: Node)
      requires Proper(node)
      modifies this
      ensures violations == old(violations) + CollectOf(AllNodes, node.children)
      decreases node, 0
    {
      forall i | 0 <= i < |node.children| ensures Proper(node.children[i]) {
        ProperChild(node.children, i);
      }
      assert CollectOf(AllNodes, node.children[..0]) == [];
      hide Proper, Collect, CollectOf, Local;
      for i := 0 to |node.children|
        invariant violations == old(violations) + CollectOf(AllNodes, node.children[..i])
      {
        CollectAfter(old(violations), AllNodes, node.children, i);
        Visit(node.children[i]);
      }
      assert node.children[..|node.children|] == node.children;
    }
  }

  lemma {:induction false} ProperChild(nodes: seq<Node>, i: nat)
    requires ProperAll(nodes) && i < |nodes|
    ensures Proper(nodes[i])
  {
    if i > 0 {
      ProperChild(nodes[1..], i - 1);
    }
  }

  /** What was found before, with what is found in the first i nodes and in the next one. */
  lemma {:induction false} CollectAfter(before: seq<Report>, v: Visitor, nodes: seq<Node>, i: nat)
    requires i < |nodes|
    ensures (before + CollectOf(v, nodes[..i])) + Collect(v, nodes[i]) == before + CollectOf(v, nodes[..i + 1])
  {
    CollectNext(v, nodes, i);
    hide Collect, CollectOf;
    Associative(before, CollectOf(v, nodes[..i]), Collect(v, nodes[i]));
  }

  lemma {:induction false} CollectNext(v: Visitor, nodes: seq<Node>, i: nat)
    requires i < |nodes|
    ensures CollectOf(v, nodes[..i + 1]) == CollectOf(v, nodes[..i]) + Collect(v, nodes[i])
  {
    assert nodes[..i + 1] == nodes[..i] + [nodes[i]];
    CollectSplit(v, nodes[..i], [nodes[i]]);
  }

  class HtmlStringVisitor {
    const skipWrappedHtml: bool
    var unsafeHtmlStrings: seq<Report>
    var overEscapedEntityStrings: seq<Report>

    constructor (skipWrappedHtml: bool)
      ensures this.skipWrappedHtml == skipWrappedHtml
      ensures unsafeHtmlStrings == [] && overEscapedEntityStrings == []
    {
      this.skipWrappedHtml := skipWrappedHtml;
      unsafeHtmlStrings, overEscapedEntityStrings := [], [];
    }

    method Visit(node: Node)
      modifies this
      ensures unsafeHtmlStrings == old(unsafeHtmlStrings) + Collect(Strings(Html, skipWrappedHtml), node)
      ensures overEscapedEntityStrings
           == old(overEscapedEntityStrings) + Collect(Strings(Entity, skipWrappedHtml), node)
      decreases node, 1
    {
      if LooksLikeHtml(node) {
        unsafeHtmlStrings := unsafeHtmlStrings + [Report(WrapHtml, node.id)];
      }
      if HasEntity(node) {
        overEscapedEntityStrings := overEscapedEntityStrings + [Report(HtmlEntities, node.id)];
      }
      assert unsafeHtmlStrings == old(unsafeHtmlStrings) + Local(Strings(Html, skipWrappedHtml), node);
      assert overEscapedEntityStrings == old(overEscapedEntityStrings) + Local(Strings(Entity, skipWrappedHtml), node);
      hide Local, CollectOf;
      if !(skipWrappedHtml && IsWrapper(node)) && !IsRepr(node) {
        GenericVisit(node);
        CollectHere(old(unsafeHtmlStrings), Strings(Html, skipWrappedHtml), node);
        CollectHere(old(overEscapedEntityStrings), Strings(Entity, skipWrappedHtml), node);
      }
    }

    method GenericVisit(node: Node)
      modifies this
      ensures unsafeHtmlStrings == old(unsafeHtmlStrings) + CollectOf(Strings(Html, skipWrappedHtml), node.children)
      ensures overEscapedEntityStrings
           == old(overEscapedEntityStrings) + CollectOf(Strings(Entity, skipWrappedHtml), node.children)
      decreases node, 0
    {
      assert CollectOf(Strings(Html, skipWrappedHtml), []) == CollectOf(Strings(Entity, skipWrappedHtml), []) == [];
      hide Collect, CollectOf, Local;
      assert node.children[..0] == [];
      for i := 0 to |node.children|
        invariant unsafeHtmlStrings
               == old(unsafeHtmlStrings) + CollectOf(Strings(Html, skipWrappedHtml), node.children[..i])
        invariant overEscapedEntityStrings
               == old(overEscapedEntityStrings) + CollectOf(Strings(Entity, skipWrappedHtml), node.children[..i])
      {
        CollectAfter(old(unsafeHtmlStrings), Strings(Html, skipWrappedHtml), node.children, i);
        CollectAfter(old(overEscapedEntityStrings), Strings(Entity, skipWrappedHtml), node.children, i);
        Visit(node.children[i]);
      }
      assert node.children[..|node.children|] == node.children;
    }
  }

  /** Whether the string visitor finds a string that looks like HTML, wrapped or not. */
  method HasHtmlString(node: Node) returns (has: bool)
    ensures has <==> Occurs(node, HtmlString)
  {
    var visitor := new HtmlStringVisitor(false);
    visitor.Visit(node);
    has := |visitor.unsafeHtmlStrings| > 0;
    FindsHtmlStrings(node);
    hide Collect, Occurs;
    assert visitor.unsafeHtmlStrings == [] + Collect(Strings(Html, false), node);
  }

  class OuterFormatVisitor {
    var violations: seq<Report>

    constructor ()
      ensures violations == []
    {
      violations := [];
    }

    method Visit(node: Node)
      modifies this
      ensures violations == old(violations) + Collect(OuterFormat, node)
      decreases node, 1
    {
      if IsFormatCall(node) {
        var visitor := new HtmlStringVisitor(true);
        visitor.Visit(node);
        var unsafe := visitor.unsafeHtmlStrings;
        assert unsafe == Collect(UNWRAPPED_HTML, node) == CollectOf(UNWRAPPED_HTML, node.children)
            == Collect(OuterFormat, node);
        AddViolations(unsafe);
      } else if !IsRepr(node) {
        GenericVisit(node);
        assert Collect(OuterFormat, node) == CollectOf(OuterFormat, node.children);
      }
    }

    method AddViolations(unsafe: seq<Report>)
      modifies this
      ensures violations == old(violations) + unsafe
    {
      for i := 0 to |unsafe|
        invariant violations == old(violations) + unsafe[..i]
      {
        violations := violations + [unsafe[i]];
      }
    }

    method GenericVisit(node: Node)
      modifies this
      ensures violations == old(violations) + CollectOf(OuterFormat, node.children)
      decreases node, 0
    {
      assert CollectOf(OuterFormat, node.children[..0]) == [];
      hide Collect, CollectOf, Local;
      for i := 0 to |node.children|
        invariant violations == old(violations) + CollectOf(OuterFormat, node.children[..i])
      {
        CollectAfter(old(violations), OuterFormat, node.children, i);
        Visit(node.children[i]);
      }
      assert node.children[..|node.children|] == node.children;
    }
  }

  // ---------- What the kinds of nodes are ----------

  /** In the letters of the code: x.format(...), HTML(...) or Text(...), and def __repr__. */
  lemma {:induction false} KindsOfNodes(n: Node)
    ensures IsFormatCall(n)
        <==> n.kind == Call && |n.children| >= 1 && n.children[0].kind == Attribute("format")
             && |n.children[0].children| == 1
    ensures IsFormatCall(n) ==> Caller(n) == n.children[0].children[0]
    ensures IsWrapper(n)
        <==> n.kind == Call && |n.children| >= 1
             && (n.children[0].kind == Name("HTML") || n.children[0].kind == Name("Text"))
  {
  }

  /** A format() call breaks the rule if one of its arguments holds a wrapper call and its left-hand side is none. */
  lemma {:induction false} NeedsWrapperIff(n: Node)
    ensures NeedsWrapper(n)
        <==> IsFormatCall(n) && !IsWrapper(Caller(n))
             && exists i: nat :: 1 <= i < |n.children| && Occurs(n.children[i], Wrapper)
  {
    hide IsWrapper, Occurs;
    if IsFormatCall(n) {
      var args := n.children[1..];
      assert forall i: nat :: 1 <= i < |n.children| ==> n.children[i] == args[i - 1];
      assert forall i: nat :: i < |args| ==> args[i] == n.children[i + 1];
    }
  }

  /** What is looked for below a node is looked for along all paths that do not pass a definition of __repr__. */
  lemma {:induction false} OccursAlongPath(n: Node, path: seq<nat>)
    requires IsPath(n, path)
    ensures Visible(n, path) <==> forall a :: a in Ancestors(n, path) ==> a.kind != FunctionDef("__repr__")
    ensures Visible(n, path) && IsWrapper(NodeAt(n, path)) ==> Occurs(n, Wrapper)
    ensures Visible(n, path) && NodeAt(n, path).kind == Attribute("format") ==> Occurs(n, FormatAttribute)
    ensures Visible(n, path) && LooksLikeHtml(NodeAt(n, path)) ==> Occurs(n, HtmlString)
  {
    hide IsWrapper, LooksLikeHtml, IsPath, NodeAt, Ancestors;
    assert Visible(n, path) ==> forall wanted :: Matches(NodeAt(n, path), wanted) ==> Occurs(n, wanted);
    assert IsWrapper(NodeAt(n, path)) ==> Matches(NodeAt(n, path), Wrapper);
    assert NodeAt(n, path).kind == Attribute("format") ==> Matches(NodeAt(n, path), FormatAttribute);
    assert LooksLikeHtml(NodeAt(n, path)) ==> Matches(NodeAt(n, path), HtmlString);
  }

  lemma {:induction false} OccursOnPath(n: Node, wanted: Wanted) returns (path: seq<nat>)
    requires Occurs(n, wanted)
    ensures IsPath(n, path) && Visible(n, path)
    ensures match wanted
      case Wrapper => IsWrapper(NodeAt(n, path))
      case FormatAttribute => NodeAt(n, path).kind == Attribute("format")
      case HtmlString => LooksLikeHtml(NodeAt(n, path))
  {
    path :| IsPath(n, path) && Visible(n, path) && Matches(NodeAt(n, path), wanted);
  }

  /** A string looks like HTML if it holds '<' and nowhere "(?P<". */
  lemma {:induction false} LooksLikeHtmlIff(n: Node)
    ensures LooksLikeHtml(n)
        <==> n.kind.Str? && '<' in n.kind.text && forall i: nat :: !StandsAt(n.kind.text, "(?P<", i)
  {
    if n.kind.Str? {
      var t := n.kind.text;
      forall i: nat
        ensures At(t, "(?P<", i) <==> StandsAt(t, "(?P<", i)
        ensures At(t, "<", i) <==> i < |t| && t[i] == '<'
      {
        StandsAtIff(t, "(?P<", i);
        assert i < |t| && t[i] == '<' ==> t[i + 0] == "<"[0];
        assert At(t, "<", i) ==> t[i + 0] == "<"[0];
      }
      hide At, StandsAt;
    }
  }

  /** The characters from i up to j are an entity: an ampersand, perhaps a number sign, letters and digits, of which
      there is one at least, and a semicolon. */
  predicate EntityFromTo(t: string, i: nat, j: nat) {
    && i + 1 < j < |t| && t[i] == '&' && t[j] == ';'
    && (var first := if t[i + 1] == '#' then i + 2 else i + 1;
        && first < j
        && forall k :: first <= k < j ==> 'a' <= t[k] <= 'z' || 'A' <= t[k] <= 'Z' || '0' <= t[k] <= '9')
  }

  /** The same, with the name cut out of the text. */
  lemma {:induction false} EntityName(t: string, i: nat, j: nat, first: nat)
    requires i + 1 < |t| && t[i] == '&' && first == (if t[i + 1] == '#' then i + 2 else i + 1) && first <= j < |t|
    ensures EntityFromTo(t, i, j)
        <==> first < j && t[first..][j - first] == ';' && Span(t[first..], IsAlphanumeric) == j - first
  {
    var name := t[first..];
    assert name[j - first] == t[j];
    if EntityFromTo(t, i, j) {
      SpanIs(name, IsAlphanumeric, j - first);
    } else if Span(name, IsAlphanumeric) == j - first {
      forall k | first <= k < j ensures IsAlphanumeric(t[k]) {
        assert t[k] == name[k - first];
      }
    }
  }

  lemma {:induction false} EntityAtName(t: string, i: nat, first: nat)
    requires i + 1 < |t| && t[i] == '&' && first == (if t[i + 1] == '#' then i + 2 else i + 1)
    ensures var n := Span(t[first..], IsAlphanumeric); IsEntityAt(t, i) <==> 0 < n < |t| - first && t[first + n] == ';'
  {
    var name := t[first..];
    var n := Span(name, IsAlphanumeric);
    assert n < |name| ==> name[n] == t[first + n];
  }

  lemma {:induction false} EntityAtIff(t: string, i: nat)
    ensures IsEntityAt(t, i) <==> exists j: nat :: EntityFromTo(t, i, j)
  {
    hide EntityFromTo, Span;
    EntityStarts(t, i);
    if i + 1 < |t| && t[i] == '&' {
      var first := if t[i + 1] == '#' then i + 2 else i + 1;
      var n := Span(t[first..], IsAlphanumeric);
      hide IsEntityAt;
      EntityAtName(t, i, first);
      if IsEntityAt(t, i) {
        EntityName(t, i, first + n, first);
      }
      if j: nat :| EntityFromTo(t, i, j) {
        EntityName(t, i, j, first);
        assert t[first..][j - first] == t[j];
      }
    }
  }

  lemma {:induction false} EntityStarts(t: string, i: nat)
    ensures IsEntityAt(t, i) ==> i + 1 < |t| && t[i] == '&'
    ensures forall j: nat :: EntityFromTo(t, i, j) ==> i + 1 < j < |t| && t[i] == '&' && t[j] == ';'
    ensures forall j: nat :: EntityFromTo(t, i, j) && t[i + 1] == '#' ==> i + 2 < j
  {
  }

  lemma {:induction false} HasEntityIff(n: Node)
    ensures HasEntity(n) <==> n.kind.Str? && exists i: nat, j: nat :: EntityFromTo(n.kind.text, i, j)
  {
    if HasEntity(n) {
      var i :| 0 <= i < |n.kind.text| && IsEntityAt(n.kind.text, i);
      EntityAtIff(n.kind.text, i);
    }
    if n.kind.Str? {
      if i: nat, j: nat :| EntityFromTo(n.kind.text, i, j) {
        EntityAtIff(n.kind.text, i);
      }
    }
  }

  // ---------- In order ----------

  /** The node at the end of p comes before that at the end of q: it is above it, or further left. */
  predicate Earlier(p: seq<nat>, q: seq<nat>) {
    q != [] && (p == [] || p[0] < q[0] || (p[0] == q[0] && Earlier(p[1..], q[1..])))
  }

  ghost predicate ReportAt(n: Node, path: seq<nat>, r: Report) {
    IsPath(n, path) && NodeAt(n, path).id == r.id
  }

  /** The paths to the nodes a visitor reports, in the order of its reports. */
  ghost function Places(v: Visitor, n: Node): seq<seq<nat>>
    decreases n, 0
  {
    (if Local(v, n) == [] then [] else [[]])
    + if Onward(v, n).None? then [] else PlacesFrom(Onward(v, n).value, n.children, 0)
  }

  ghost function PlacesFrom(v: Visitor, nodes: seq<Node>, first: nat): seq<seq<nat>>
    decreases nodes, |nodes| - first
  {
    if first >= |nodes| then []
    else Prefixed(first, Places(v, nodes[first])) + PlacesFrom(v, nodes, first + 1)
  }

  function Prefixed(position: nat, paths: seq<seq<nat>>): (r: seq<seq<nat>>)
    ensures |r| == |paths| && forall k :: 0 <= k < |paths| ==> r[k] == [position] + paths[k]
  {
    if paths == [] then [] else [[position] + paths[0]] + Prefixed(position, paths[1..])
  }

  ghost predicate InOrder(places: seq<seq<nat>>) {
    forall j, k :: 0 <= j < k < |places| ==> Earlier(places[j], places[k])
  }

  ghost predicate Placed(n: Node, reports: seq<Report>, places: seq<seq<nat>>) {
    |places| == |reports| && InOrder(places) && forall k :: 0 <= k < |places| ==> ReportAt(n, places[k], reports[k])
  }

  predicate StartsFrom(nodes: seq<Node>, first: nat, path: seq<nat>) {
    path != [] && first <= path[0] < |nodes|
  }

  ghost predicate PlacedFrom(nodes: seq<Node>, first: nat, reports: seq<Report>, places: seq<seq<nat>>) {
    && |places| == |reports| && InOrder(places)
    && forall k :: 0 <= k < |places| ==>
         StartsFrom(nodes, first, places[k]) && ReportAt(nodes[places[k][0]], places[k][1..], reports[k])
  }

  lemma {:induction false} PlacesInOrder(v: Visitor, n: Node)
    ensures Placed(n, Collect(v, n), Places(v, n))
    decreases n, 0
  {
    var local, onward := Local(v, n), Onward(v, n);
    var below, inner := if onward.None? then [] else CollectOf(onward.value, n.children),
                        if onward.None? then [] else PlacesFrom(onward.value, n.children, 0);
    assert Collect(v, n) == local + below && Places(v, n) == (if local == [] then [] else [[]]) + inner;
    hide Local, Onward, Collect, CollectOf, Places, PlacesFrom, Placed, PlacedFrom;
    LocalIsOwn(v, n);
    if onward.Some? {
      PlacesFromInOrder(onward.value, n.children, 0);
      assert n.children[0..] == n.children;
    } else {
      NothingPlaced(n.children);
    }
    JoinLocal(n, local, below, inner);
  }

  lemma NothingPlaced(nodes: seq<Node>)
    ensures PlacedFrom(nodes, 0, [], [])
  {
  }

  /** The node's own report, before those below it. */
  lemma JoinLocal(n: Node, local: seq<Report>, below: seq<Report>, inner: seq<seq<nat>>)
    requires |local| <= 1 && (forall r :: r in local ==> r.id == n.id) && PlacedFrom(n.children, 0, below, inner)
    ensures Placed(n, local + below, (if local == [] then [] else [[]]) + inner)
  {
    var reports, places := local + below, (if local == [] then [] else [[]]) + inner;
    assert local != [] ==> ReportAt(n, [], local[0]);
    forall k | 0 <= k < |inner|
      ensures ReportAt(n, inner[k], below[k]) && Earlier([], inner[k])
    {
      assert StartsFrom(n.children, 0, inner[k]) && ReportAt(n.children[inner[k][0]], inner[k][1..], below[k]);
    }
    hide ReportAt, StartsFrom, Earlier;
    forall j, k | 0 <= j < k < |places|
      ensures Earlier(places[j], places[k])
    {
      if j >= |local| {
        assert Earlier(inner[j - |local|], inner[k - |local|]);
      }
    }
  }

  lemma {:induction false} PlacesFromInOrder(v: Visitor, nodes: seq<Node>, first: nat)
    requires first <= |nodes|
    ensures PlacedFrom(nodes, first, CollectOf(v, nodes[first..]), PlacesFrom(v, nodes, first))
    decreases nodes, |nodes| - first
  {
    if first < |nodes| {
      PlacesInOrder(v, nodes[first]);
      PlacesFromInOrder(v, nodes, first + 1);
      assert nodes[first..][1..] == nodes[first + 1..] && nodes[first..][0] == nodes[first];
      hide Collect, Places, Placed, PlacedFrom;
      JoinPlaced(nodes, first, Collect(v, nodes[first]), Places(v, nodes[first]), CollectOf(v, nodes[first + 1..]),
                 PlacesFrom(v, nodes, first + 1));
    }
  }

  lemma JoinPlaced(nodes: seq<Node>, first: nat, own: seq<Report>, mine: seq<seq<nat>>, rest: seq<Report>,
                   others: seq<seq<nat>>)
    requires first < |nodes| && Placed(nodes[first], own, mine) && PlacedFrom(nodes, first + 1, rest, others)
    ensures PlacedFrom(nodes, first, own + rest, Prefixed(first, mine) + others)
  {
    hide ReportAt;
    var reports, places := own + rest, Prefixed(first, mine) + others;
    forall k | 0 <= k < |places|
      ensures StartsFrom(nodes, first, places[k]) && ReportAt(nodes[places[k][0]], places[k][1..], reports[k])
    {
      if k < |mine| {
        assert places[k] == [first] + mine[k] && places[k][1..] == mine[k];
      } else {
        assert places[k] == others[k - |mine|] && reports[k] == rest[k - |mine|];
      }
    }
    forall j, k | 0 <= j < k < |places|
      ensures Earlier(places[j], places[k])
    {
      if k < |mine| {
        assert Earlier(mine[j], mine[k]) && places[j][1..] == mine[j] && places[k][1..] == mine[k];
      } else if j < |mine| {
        assert StartsFrom(nodes, first + 1, others[k - |mine|]);
      } else {
        assert Earlier(others[j - |mine|], others[k - |mine|]);
      }
    }
  }

  /** The nodes are reported in the order of the code: a node before those below it, and from left to right. */
  lemma {:induction false} ReportsInOrder(v: Visitor, root: Node)
    ensures exists places :: Placed(root, Collect(v, root), places)
  {
    PlacesInOrder(v, root);
  }

  // ---------- Exactly once ----------

  /** The visitor that reaches the end of the path, if one does. */
  function Reaching(v: Visitor, n: Node, path: seq<nat>): Option<Visitor>
    requires IsPath(n, path)
    decreases |path|
  {
    if path == [] then Some(v)
    else
      match Onward(v, n)
      case None => None
      case Some(w) => Reaching(w, n.children[path[0]], path[1..])
  }

  lemma {:induction false} ReportsBelong(v: Visitor, n: Node, r: Report)
    requires r in Collect(v, n)
    ensures r.id in Ids(n)
    decreases n, 1
  {
    if r !in Local(v, n) {
      ReportsBelongTo(Onward(v, n).value, n.children, r);
    }
  }

  lemma {:induction false} ReportsBelongTo(v: Visitor, nodes: seq<Node>, r: Report)
    requires r in CollectOf(v, nodes)
    ensures r.id in IdsOf(nodes)
    decreases nodes, 0
  {
    if r in Collect(v, nodes[0]) {
      ReportsBelong(v, nodes[0], r);
    } else {
      ReportsBelongTo(v, nodes[1..], r);
    }
  }

  lemma {:induction false} CountInHead(v: Visitor, nodes: seq<Node>, r: Report)
    requires nodes != []
    ensures multiset(CollectOf(v, nodes))[r]
         == multiset(Collect(v, nodes[0]))[r] + multiset(CollectOf(v, nodes[1..]))[r]
  {
    hide Collect;
    CountInBoth(Collect(v, nodes[0]), CollectOf(v, nodes[1..]), r);
  }

  /** In a list of proper trees a node is reported either for the first tree or for the others. */
  lemma {:induction false} CountInOne(v: Visitor, nodes: seq<Node>, r: Report)
    requires ProperAll(nodes) && nodes != []
    ensures r.id in Ids(nodes[0]) ==> multiset(CollectOf(v, nodes[1..]))[r] == 0
    ensures r.id in IdsOf(nodes[1..]) ==> multiset(Collect(v, nodes[0]))[r] == 0
  {
    assert Ids(nodes[0]) !! IdsOf(nodes[1..]);
    hide *;
    if r in CollectOf(v, nodes[1..]) {
      ReportsBelongTo(v, nodes[1..], r);
    }
    if r in Collect(v, nodes[0]) {
      ReportsBelong(v, nodes[0], r);
    }
  }

  lemma {:induction false} CountInChild(v: Visitor, nodes: seq<Node>, i: nat, r: Report)
    requires ProperAll(nodes) && i < |nodes| && r.id in Ids(nodes[i])
    ensures multiset(CollectOf(v, nodes))[r] == multiset(Collect(v, nodes[i]))[r]
  {
    var rest := nodes[1..];
    assert ProperAll(rest);
    hide *;
    CountInHead(v, nodes, r);
    CountInOne(v, nodes, r);
    if i > 0 {
      assert rest[i - 1] == nodes[i];
      ChildIds(rest, i - 1);
      CountInChild(v, rest, i - 1, r);
    }
  }

  lemma {:induction false} PathIds(n: Node, path: seq<nat>)
    requires IsPath(n, path)
    ensures NodeAt(n, path).id in Ids(n) && (path != [] ==> NodeAt(n, path).id in IdsOf(n.children))
    decreases |path|
  {
    if path != [] {
      PathIds(n.children[path[0]], path[1..]);
      ChildIds(n.children, path[0]);
    }
  }

  lemma {:induction false} CountInBoth(a: seq<Report>, b: seq<Report>, r: Report)
    ensures multiset(a + b)[r] == multiset(a)[r] + multiset(b)[r]
  {
  }

  /** A visitor reports at most once for a node itself, and nothing else. */
  lemma {:induction false} LocalIsOwn(v: Visitor, n: Node)
    ensures |Local(v, n)| <= 1 && forall r :: r in Local(v, n) ==> r.id == n.id
  {
    hide NeedsWrapper, IsWrapper, Occurs, OccursIn, OperationRule, IsListed;
  }

  lemma {:induction false} CountCollect(v: Visitor, n: Node, r: Report)
    ensures multiset(Collect(v, n))[r]
         == (if r in Local(v, n) then 1 else 0)
            + if Onward(v, n).None? then 0 else multiset(CollectOf(Onward(v, n).value, n.children))[r]
  {
    LocalIsOwn(v, n);
    hide Local, Onward, CollectOf;
    var local := Local(v, n);
    CountInBoth(local, if Onward(v, n).None? then [] else CollectOf(Onward(v, n).value, n.children), r);
    assert |local| == 1 ==> local == [local[0]];
  }

  /** What a visitor counts at the root of a proper tree. */
  lemma {:induction false} CountAtRoot(v: Visitor, n: Node, rule: Rule)
    requires Proper(n)
    ensures multiset(Collect(v, n))[Report(rule, n.id)] == if Report(rule, n.id) in Local(v, n) then 1 else 0
  {
    var r, onward := Report(rule, n.id), Onward(v, n);
    assert n.id !in IdsOf(n.children);
    hide *;
    CountCollect(v, n, r);
    if onward.Some? && r in CollectOf(onward.value, n.children) {
      ReportsBelongTo(onward.value, n.children, r);
    }
  }

  /** What it counts for a node below child i. */
  lemma {:induction false} CountBelow(v: Visitor, n: Node, i: nat, r: Report)
    requires Proper(n) && i < |n.children| && r.id in Ids(n.children[i])
    ensures multiset(Collect(v, n))[r]
         == if Onward(v, n).None? then 0 else multiset(Collect(Onward(v, n).value, n.children[i]))[r]
  {
    assert n.id !in IdsOf(n.children) && ProperAll(n.children);
    hide *;
    CountCollect(v, n, r);
    ChildIds(n.children, i);
    LocalIsOwn(v, n);
    if Onward(v, n).Some? {
      CountInChild(Onward(v, n).value, n.children, i, r);
    }
  }

  /** A node is reported as often as the visitor that reaches it reports it, and not at all if none does. */
  lemma {:induction false} ReportedOnce(v: Visitor, n: Node, path: seq<nat>, rule: Rule)
    requires Proper(n) && IsPath(n, path)
    ensures var m, w := NodeAt(n, path), Reaching(v, n, path);
      multiset(Collect(v, n))[Report(rule, m.id)]
      == if w.Some? && Report(rule, m.id) in Local(w.value, m) then 1 else 0
    decreases |path|
  {
    if path == [] {
      CountAtRoot(v, n, rule);
    } else {
      var child, onward := n.children[path[0]], Onward(v, n);
      ProperChild(n.children, path[0]);
      PathIds(child, path[1..]);
      CountBelow(v, n, path[0], Report(rule, NodeAt(n, path).id));
      if onward.Some? {
        ReportedOnce(onward.value, child, path[1..], rule);
      }
    }
  }

  lemma {:induction false} AllNodesReaches(n: Node, path: seq<nat>)
    requires IsPath(n, path)
    ensures Reaching(AllNodes, n, path) == if Visible(n, path) then Some(AllNodes) else None
    decreases |path|
  {
    if path != [] {
      AllNodesReaches(n.children[path[0]], path[1..]);
      assert Ancestors(n, path)[0] == n;
    }
  }

  /** No two of the rules apply to one node. */
  lemma {:induction false} LocalMembers(n: Node)
    ensures Report(RequiresHtmlOrText, n.id) in Local(AllNodes, n) <==> NeedsWrapper(n)
    ensures Report(CloseBeforeFormat, n.id) in Local(AllNodes, n) <==> IsWrapper(n) && Occurs(n, FormatAttribute)
    ensures Report(DeprecatedDisplayName, n.id) in Local(AllNodes, n) <==> n.kind == DEPRECATED_NAME
    ensures forall rule: Rule :: rule.InterpolateHtml? || rule.ConcatHtml? ==>
      (Report(rule, n.id) in Local(AllNodes, n) <==> OperationRule(n) == Some(rule) && OccursIn(n.children, HtmlString))
  {
    hide Occurs, OccursIn;
  }

  lemma {:induction false} AllNodesCount(root: Node, path: seq<nat>, rule: Rule)
    requires Proper(root) && IsPath(root, path)
    ensures var r := Report(rule, NodeAt(root, path).id);
      multiset(Collect(AllNodes, root))[r]
      == if Visible(root, path) && r in Local(AllNodes, NodeAt(root, path)) then 1 else 0
  {
    hide *;
    ReportedOnce(AllNodes, root, path, rule);
    AllNodesReaches(root, path);
  }

  /** Each call in the tree is reported once if it is a format() call outside __repr__ whose left-hand side is not
      wrapped while something in its arguments is, and not at all otherwise. */
  lemma {:induction false} FormatCallsReportedOnce(root: Node, path: seq<nat>)
    requires Proper(root) && IsPath(root, path)
    ensures var m := NodeAt(root, path);
      multiset(Collect(AllNodes, root))[Report(RequiresHtmlOrText, m.id)]
      == if && Visible(root, path) && m.kind == Call && |m.children| >= 1
            && m.children[0].kind == Attribute("format") && |m.children[0].children| == 1
            && !IsWrapper(m.children[0].children[0])
            && exists i: nat :: 1 <= i < |m.children| && Occurs(m.children[i], Wrapper)
         then 1 else 0
  {
    hide *;
    AllNodesCount(root, path, RequiresHtmlOrText);
    LocalMembers(NodeAt(root, path));
    KindsOfNodes(NodeAt(root, path));
    NeedsWrapperIff(NodeAt(root, path));
  }

  /** Each HTML() or Text() call outside __repr__ with a format attribute inside is reported once. */
  lemma {:induction false} WrapperCallsReportedOnce(root: Node, path: seq<nat>)
    requires Proper(root) && IsPath(root, path)
    ensures var m := NodeAt(root, path);
      multiset(Collect(AllNodes, root))[Report(CloseBeforeFormat, m.id)]
      == if && Visible(root, path) && m.kind == Call && |m.children| >= 1
            && (m.children[0].kind == Name("HTML") || m.children[0].kind == Name("Text"))
            && Occurs(m, FormatAttribute)
         then 1 else 0
  {
    hide *;
    AllNodesCount(root, path, CloseBeforeFormat);
    LocalMembers(NodeAt(root, path));
    KindsOfNodes(NodeAt(root, path));
  }

  /** Each use of the deprecated name outside __repr__ is reported once. */
  lemma {:induction false} DeprecatedNamesReportedOnce(root: Node, path: seq<nat>)
    requires Proper(root) && IsPath(root, path)
    ensures var m := NodeAt(root, path);
      multiset(Collect(AllNodes, root))[Report(DeprecatedDisplayName, m.id)]
      == if Visible(root, path) && m.kind == Attribute("display_name_with_default_escaped") then 1 else 0
  {
    assert DEPRECATED_NAME == Attribute("display_name_with_default_escaped");
    hide *;
    AllNodesCount(root, path, DeprecatedDisplayName);
    LocalMembers(NodeAt(root, path));
  }

  /** Each "+" and each "%" outside __repr__ is reported once, as a concatenation and as an interpolation, if a string
      that looks like HTML occurs on either side, wrapped or not; nothing else is reported under these rules. */
  lemma {:induction false} HtmlOperationsReportedOnce(root: Node, path: seq<nat>)
    requires Proper(root) && IsPath(root, path)
    ensures var m, reports := NodeAt(root, path), multiset(Collect(AllNodes, root));
      var html := Visible(root, path) && |m.children| == 2
                  && (Occurs(m.children[0], HtmlString) || Occurs(m.children[1], HtmlString));
      && reports[Report(ConcatHtml, m.id)] == (if html && m.kind == BinOp(Add) then 1 else 0)
      && reports[Report(InterpolateHtml, m.id)] == if html && m.kind == BinOp(Mod) then 1 else 0
  {
    var m := NodeAt(root, path);
    assert |m.children| == 2 ==>
      (OccursIn(m.children, HtmlString) <==> Occurs(m.children[0], HtmlString) || Occurs(m.children[1], HtmlString));
    assert OperationRule(m) == Some(ConcatHtml) <==> m.kind == BinOp(Add) && |m.children| == 2;
    assert OperationRule(m) == Some(InterpolateHtml) <==> m.kind == BinOp(Mod) && |m.children| == 2;
    hide *;
    AllNodesCount(root, path, ConcatHtml);
    AllNodesCount(root, path, InterpolateHtml);
    LocalMembers(m);
  }

  /** The rules about strings in format() calls are not this visitor's. */
  lemma {:induction false} NoStringsReported(root: Node, path: seq<nat>, rule: Rule)
    requires Proper(root) && IsPath(root, path) && (rule.WrapHtml? || rule.HtmlEntities?)
    ensures multiset(Collect(AllNodes, root))[Report(rule, NodeAt(root, path).id)] == 0
  {
    hide Collect, Occurs, OccursIn, NeedsWrapper;
    AllNodesCount(root, path, rule);
  }

  /** Ancestor k is the outermost format() call, and no call below it wraps the node. */
  predicate OutermostUnwrapped(ancestors: seq<Node>, k: nat) {
    && k < |ancestors| && IsFormatCall(ancestors[k])
    && (forall j :: 0 <= j < k ==> !IsFormatCall(ancestors[j]))
    && (forall j :: k < j < |ancestors| ==> !IsWrapper(ancestors[j]))
  }

  lemma {:induction false} StringsReach(n: Node, path: seq<nat>, what: What)
    requires IsPath(n, path)
    ensures Reaching(Strings(what, true), n, path)
         == if Visible(n, path) && (forall a :: a in Ancestors(n, path) ==> !IsWrapper(a))
            then Some(Strings(what, true)) else None
    decreases |path|
  {
    if path != [] {
      StringsReach(n.children[path[0]], path[1..], what);
      assert Ancestors(n, path)[0] == n;
    }
  }

  /** In a Mako expression each string that looks like HTML, or holds an entity, is listed once if it is outside
      __repr__ and not wrapped, and not at all otherwise. */
  lemma {:induction false} UnwrappedStringsListedOnce(root: Node, path: seq<nat>, what: What)
    requires Proper(root) && IsPath(root, path)
    ensures var m := NodeAt(root, path);
      multiset(Collect(Strings(what, true), root))[Report(if what == Html then WrapHtml else HtmlEntities, m.id)]
      == if Visible(root, path) && (forall a :: a in Ancestors(root, path) ==> !IsWrapper(a))
            && (if what == Html then LooksLikeHtml(m) else HasEntity(m))
         then 1 else 0
  {
    var m, v := NodeAt(root, path), Strings(what, true);
    var rule := if what == Html then WrapHtml else HtmlEntities;
    assert Report(rule, m.id) in Local(v, m) <==> if what == Html then LooksLikeHtml(m) else HasEntity(m);
    hide *;
    ReportedOnce(v, root, path, rule);
    StringsReach(root, path, what);
  }

  lemma {:induction false} OutermostStep(n: Node, rest: seq<Node>, k: nat)
    ensures OutermostUnwrapped([n] + rest, k)
         == if k == 0 then IsFormatCall(n) && forall a :: a in rest ==> !IsWrapper(a)
            else !IsFormatCall(n) && OutermostUnwrapped(rest, k - 1)
  {
    var all := [n] + rest;
    hide IsFormatCall, IsWrapper;
    assert all[0] == n && forall j :: 0 <= j < |rest| ==> rest[j] == all[j + 1];
    if OutermostUnwrapped(all, k) && k == 0 {
      forall a | a in rest ensures !IsWrapper(a) {
        var j :| 0 <= j < |rest| && rest[j] == a;
        assert all[j + 1] == a;
      }
    }
    if k == 0 && forall a :: a in rest ==> !IsWrapper(a) {
      forall j | 0 < j < |all| ensures !IsWrapper(all[j]) {
        assert all[j] == rest[j - 1];
      }
    }
    if k > 0 && OutermostUnwrapped(rest, k - 1) && !IsFormatCall(n) {
      assert forall j :: 0 < j < |all| ==> all[j] == rest[j - 1];
    }
  }

  /** The node at the end of the path is outside __repr__, inside some format() call, and not wrapped below the
      outermost one. */
  ghost predicate ToBeWrapped(n: Node, path: seq<nat>)
    requires IsPath(n, path)
  {
    Visible(n, path) && exists k: nat :: OutermostUnwrapped(Ancestors(n, path), k)
  }

  lemma {:induction false} OuterReaches(n: Node, path: seq<nat>)
    requires IsPath(n, path)
    ensures Reaching(OuterFormat, n, path) == Some(UNWRAPPED_HTML) <==> ToBeWrapped(n, path)
    ensures var reaching := Reaching(OuterFormat, n, path);
      reaching.Some? ==> reaching.value in {OuterFormat, UNWRAPPED_HTML}
    decreases |path|
  {
    if path != [] {
      var child, rest, all := n.children[path[0]], Ancestors(n.children[path[0]], path[1..]), Ancestors(n, path);
      assert all == [n] + rest && all[0] == n;
      forall k: nat
        ensures OutermostUnwrapped(all, k)
             == if k == 0 then IsFormatCall(n) && forall a :: a in rest ==> !IsWrapper(a)
                else !IsFormatCall(n) && OutermostUnwrapped(rest, k - 1)
      {
        OutermostStep(n, rest, k);
      }
      hide OutermostUnwrapped, IsWrapper;
      if IsFormatCall(n) {
        StringsReach(child, path[1..], Html);
        assert OutermostUnwrapped(all, 0) <==> forall a :: a in rest ==> !IsWrapper(a);
      } else {
        OuterReaches(child, path[1..]);
        assert forall k: nat :: OutermostUnwrapped(rest, k) ==> OutermostUnwrapped(all, k + 1);
      }
    }
  }

  /** Each string that looks like HTML is reported once if it is outside __repr__, inside some format() call and
      not wrapped below the outermost one, however deeply format() calls nest, and not at all otherwise. */
  lemma {:induction false} HtmlStringsReportedOnce(root: Node, path: seq<nat>)
    requires Proper(root) && IsPath(root, path)
    ensures multiset(Collect(OuterFormat, root))[Report(WrapHtml, NodeAt(root, path).id)]
         == if LooksLikeHtml(NodeAt(root, path)) && ToBeWrapped(root, path) then 1 else 0
  {
    var m := NodeAt(root, path);
    var r := Report(WrapHtml, m.id);
    ReportedOnce(OuterFormat, root, path, WrapHtml);
    OuterReaches(root, path);
    assert r in Local(UNWRAPPED_HTML, m) <==> LooksLikeHtml(m);
    assert r !in Local(OuterFormat, m);
  }
}
