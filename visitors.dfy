/**
 * The listener table of the `snakecasejs` rule (plugin.js:67-127): which
 * identifiers of which syntax nodes are handed to `check_identifier`, in
 * which order, and the reports that result.
 */
module Visitors {

  import opened Wrappers
  import opened CaseClassifier
  import opened FixEngine

  /** An identifier node and its name: the arguments of one `check_identifier` call. */
  datatype Site = Site(node: NodeId, name: string)

  /** A child of a visited node, seen only as whether its `type` is `'Identifier'`. */
  datatype Child = Identifier(site: Site) | NotIdentifier

  /** The `kind` of a method definition. */
  datatype MethodKind = Constructor | Method | Get | Set

  /** The node kinds the rule listens to, with the fields it reads. */
  datatype Node =
    | VariableDeclarator(declId: Child)
    | FunctionDeclaration(funcId: Option<Site>, params: seq<Child>)
    | FunctionExpression(funcId: Option<Site>, params: seq<Child>)
    | ArrowFunctionExpression(params: seq<Child>)
    | ClassDeclaration(classId: Option<Site>)
    | MethodDefinition(key: Child, computed: bool, kind: MethodKind)
    | Property(key: Child, computed: bool, isMethod: bool, shorthand: bool)
    | CatchClause(param: Option<Child>)

  /** A child is checked when it is an `Identifier`. */
  function ChildSites(c: Child): seq<Site> {
    if c.Identifier? then [c.site] else []
  }

  /** A function's own name is checked when it has one (`if (node.id)`). */
  function NameSites(id: Option<Site>): seq<Site> {
    if id.Some? then [id.value] else []
  }

  /** The `Identifier` parameters, in order (`node.params.forEach`). */
  function ParamSites(params: seq<Child>): seq<Site>
    decreases |params|
  {
    if params == [] then []
    else ParamSites(params[..|params| - 1]) + ChildSites(params[|params| - 1])
  }

  /** plugin.js:67-127: the sites a node's listener checks, in call order. */
  function Sites(n: Node): seq<Site> {
    match n
    case VariableDeclarator(declId) => ChildSites(declId)
    case FunctionDeclaration(funcId, params) => NameSites(funcId) + ParamSites(params)
    case FunctionExpression(funcId, params) => NameSites(funcId) + ParamSites(params)
    case ArrowFunctionExpression(params) => ParamSites(params)
    case ClassDeclaration(_) => []
    case MethodDefinition(key, computed, kind) =>
      if !computed && kind != Constructor then ChildSites(key) else []
    case Property(key, computed, isMethod, shorthand) =>
      if !computed && !isMethod && !shorthand then ChildSites(key) else []
    case CatchClause(param) => if param.Some? then ChildSites(param.value) else []
  }

  /** The host can answer every lookup the checks of `sites` make. */
  predicate AllCheckable(source: SourceCode, sites: seq<Site>) {
    forall s :: s in sites ==> Checkable(source, s.node, s.name)
  }

  /** The reports of checking `sites` one after the other: one per non-conforming name. */
  function ReportsFor(source: SourceCode, sites: seq<Site>): seq<Report>
    requires AllCheckable(source, sites)
    decreases |sites|
  {
    if sites == [] then []
    else
      var last := sites[|sites| - 1];
      var d := Diagnose(source, last.node, last.name);
      ReportsFor(source, sites[..|sites| - 1]) + if d.Some? then [d.value] else []
  }

  /** One `if (x.type === 'Identifier') check_identifier(x, x.name)`. */
  method CheckChild(source: SourceCode, c: Child) returns (reports: seq<Report>)
    requires AllCheckable(source, ChildSites(c))
    ensures reports == ReportsFor(source, ChildSites(c))
  {
    reports := [];
    if c.Identifier? {
      assert c.site in ChildSites(c);
      var r := CheckIdentifier(source, c.site.node, c.site.name);
      if r.Some? {
        reports := [r.value];
      }
    }
  }

  /** `node.params.forEach(param => { if (param.type === 'Identifier') check_identifier(param, param.name) })`. */
  method CheckParams(source: SourceCode, params: seq<Child>) returns (reports: seq<Report>)
    requires AllCheckable(source, ParamSites(params))
    ensures reports == ReportsFor(source, ParamSites(params))
  {
    reports := [];
    for i := 0 to |params|
      invariant AllCheckable(source, ParamSites(params[..i]))
      invariant reports == ReportsFor(source, ParamSites(params[..i]))
    {
      assert params[..i + 1][..i] == params[..i];
      ParamSitesMembers(params);
      ParamSitesMembers(params[..i + 1]);
      assert params[i] in params;
      var more := CheckChild(source, params[i]);
      ReportsForConcat(source, ParamSites(params[..i]), ChildSites(params[i]));
      reports := reports + more;
    }
    assert params[..|params|] == params;
  }

  /** The listener of `n`: its checks, in order, and the reports they make. */
  method Visit(source: SourceCode, n: Node) returns (reports: seq<Report>)
    requires AllCheckable(source, Sites(n))
    ensures reports == ReportsFor(source, Sites(n))
  {
    match n
    case VariableDeclarator(declId) =>
      reports := CheckChild(source, declId);
    case FunctionDeclaration(funcId, params) =>
      reports := CheckFunction(source, funcId, params);
    case FunctionExpression(funcId, params) =>
      reports := CheckFunction(source, funcId, params);
    case ArrowFunctionExpression(params) =>
      reports := CheckParams(source, params);
    case ClassDeclaration(_) =>
      reports := [];
    case MethodDefinition(key, computed, kind) =>
      reports := [];
      if !computed && kind != Constructor {
        reports := CheckChild(source, key);
      }
    case Property(key, computed, isMethod, shorthand) =>
      reports := [];
      if !computed && !isMethod && !shorthand {
        reports := CheckChild(source, key);
      }
    case CatchClause(param) =>
      reports := [];
      if param.Some? {
        reports := CheckChild(source, param.value);
      }
  }

  /** The shared body of the two function listeners: the name, then the parameters. */
  method CheckFunction(source: SourceCode, funcId: Option<Site>, params: seq<Child>) returns (reports: seq<Report>)
    requires AllCheckable(source, NameSites(funcId) + ParamSites(params))
    ensures reports == ReportsFor(source, NameSites(funcId) + ParamSites(params))
  {
    reports := [];
    if funcId.Some? {
      assert funcId.value in NameSites(funcId) + ParamSites(params);
      var r := CheckIdentifier(source, funcId.value.node, funcId.value.name);
      if r.Some? {
        reports := [r.value];
      }
    }
    var more := CheckParams(source, params);
    ReportsForConcat(source, NameSites(funcId), ParamSites(params));
    reports := reports + more;
  }

  // Properties of the selection policy.

  /** A parameter is checked exactly when it is an `Identifier`. */
  lemma {:induction false} ParamSitesMembers(params: seq<Child>)
    ensures forall s :: s in ParamSites(params) <==> Identifier(s) in params
    decreases |params|
  {
    if params != [] {
      var init := params[..|params| - 1];
      ParamSitesMembers(init);
      assert params == init + [params[|params| - 1]];
    }
  }

  /** Parameters are checked in order: the sites of a concatenation are the concatenated sites. */
  lemma {:induction false} ParamSitesConcat(a: seq<Child>, b: seq<Child>)
    ensures ParamSites(a + b) == ParamSites(a) + ParamSites(b)
    decreases |b|
  {
    if b == [] {
      assert a + b == a;
    } else {
      assert (a + b)[..|a + b| - 1] == a + b[..|b| - 1];
      ParamSitesConcat(a, b[..|b| - 1]);
    }
  }

  /** When every parameter is an `Identifier`, each is checked once, at its own position. */
  lemma {:induction false} ParamSitesAllIdentifiers(params: seq<Child>)
    requires forall i :: 0 <= i < |params| ==> params[i].Identifier?
    ensures |ParamSites(params)| == |params|
    ensures forall i :: 0 <= i < |params| ==> ParamSites(params)[i] == params[i].site
    decreases |params|
  {
    if params != [] {
      ParamSitesAllIdentifiers(params[..|params| - 1]);
    }
  }

  /** A function's name is checked before its parameters. */
  lemma FunctionNameFirst(n: Node)
    requires (n.FunctionDeclaration? || n.FunctionExpression?) && n.funcId.Some?
    ensures Sites(n) == [n.funcId.value] + ParamSites(n.params)
  {
  }

  /** Class names, constructors, computed keys and method or shorthand properties are never checked. */
  lemma Exemptions(n: Node)
    ensures n.ClassDeclaration? ==> Sites(n) == []
    ensures n.MethodDefinition? && (n.computed || n.kind == Constructor) ==> Sites(n) == []
    ensures n.Property? && (n.computed || n.isMethod || n.shorthand) ==> Sites(n) == []
    ensures n.CatchClause? && (n.param.None? || n.param.value.NotIdentifier?) ==> Sites(n) == []
    ensures n.VariableDeclarator? && n.declId.NotIdentifier? ==> Sites(n) == []
  {
  }

  /** The checked half of the policy: each non-exempt `Identifier` position yields exactly its own site. */
  lemma Checked(n: Node)
    ensures n.VariableDeclarator? && n.declId.Identifier? ==> Sites(n) == [n.declId.site]
    ensures n.MethodDefinition? ==>
      Sites(n) == if n.key.Identifier? && !n.computed && n.kind != Constructor then [n.key.site] else []
    ensures n.Property? ==>
      Sites(n) == if n.key.Identifier? && !n.computed && !n.isMethod && !n.shorthand then [n.key.site] else []
    ensures n.CatchClause? && n.param.Some? && n.param.value.Identifier? ==> Sites(n) == [n.param.value.site]
    ensures (n.FunctionDeclaration? || n.FunctionExpression?) && n.funcId.None? ==> Sites(n) == ParamSites(n.params)
    ensures n.ArrowFunctionExpression? ==> Sites(n) == ParamSites(n.params)
  {
  }

  /** The parameters yield at most one site each. */
  lemma {:induction false} SitesBound(params: seq<Child>)
    ensures |ParamSites(params)| <= |params|
    decreases |params|
  {
    if params != [] {
      SitesBound(params[..|params| - 1]);
    }
  }

  // Properties of the reports.

  lemma {:induction false} ReportsForConcat(source: SourceCode, a: seq<Site>, b: seq<Site>)
    requires AllCheckable(source, a) && AllCheckable(source, b)
    ensures AllCheckable(source, a + b)
    ensures ReportsFor(source, a + b) == ReportsFor(source, a) + ReportsFor(source, b)
    decreases |b|
  {
    if b == [] {
      assert a + b == a;
    } else {
      var init := b[..|b| - 1];
      assert (a + b)[..|a + b| - 1] == a + init;
      assert forall s :: s in init ==> s in b;
      ReportsForConcat(source, a, init);
    }
  }

  /** Every report is the diagnosis of a checked site whose name does not conform, and sites that conform are silent. */
  lemma {:induction false} ReportsAreViolations(source: SourceCode, sites: seq<Site>)
    requires AllCheckable(source, sites)
    ensures |ReportsFor(source, sites)| <= |sites|
    ensures forall r :: r in ReportsFor(source, sites) ==> Site(r.node, r.name) in sites && !IsSnakeCase(r.name)
    ensures forall r :: r in ReportsFor(source, sites) ==>
      Site(r.node, r.name) in sites && r == Diagnose(source, r.node, r.name).value
    ensures (forall s :: s in sites ==> IsSnakeCase(s.name)) ==> ReportsFor(source, sites) == []
    decreases |sites|
  {
    if sites != [] {
      var init := sites[..|sites| - 1];
      assert forall s :: s in init ==> s in sites;
      ReportsAreViolations(source, init);
    }
  }

  /** Conversely, every checked site whose name does not conform is reported. */
  lemma {:induction false} ViolationsAreReported(source: SourceCode, sites: seq<Site>, s: Site)
    requires AllCheckable(source, sites)
    requires s in sites && !IsSnakeCase(s.name)
    ensures exists r :: r in ReportsFor(source, sites) && r.node == s.node && r.name == s.name
    decreases |sites|
  {
    var init := sites[..|sites| - 1];
    var last := sites[|sites| - 1];
    assert forall t :: t in init ==> t in sites;
    assert sites == init + [last];
    if s == last {
      var d := Diagnose(source, last.node, last.name);
      assert d.value in ReportsFor(source, sites);
    } else {
      assert s in init;
      ViolationsAreReported(source, init, s);
    }
  }

  /** `function HTTPGet(reqID) {}`: the name, then the parameter. */
  lemma ExampleFunction()
    ensures Sites(FunctionDeclaration(Some(Site(1, "HTTPGet")), [Identifier(Site(2, "reqID"))]))
      == [Site(1, "HTTPGet"), Site(2, "reqID")]
  {
  }
}
