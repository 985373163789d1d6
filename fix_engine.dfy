/**
 * The per-identifier check of the `snakecasejs` rule, `check_identifier`
 * (plugin.js:22-65): classify the name, and for a non-conforming one look up
 * the references to rename and build the list of edits of the fix.
 *
 * The scope manager of the host is consumed as already-resolved data: a
 * scope maps names to variables and may have an enclosing scope, a variable
 * lists its references, a reference names the identifier node it occurs at.
 * AST nodes are known only by their identity.
 */
module FixEngine {

  import opened Wrappers
  import opened CaseClassifier
  import opened Transliteration

  /** The identity of an AST node: `a === b` on nodes is equality of ids. */
  type NodeId = nat

  /** A reference (read or write) to a variable, at an identifier node. */
  datatype Ref = Ref(identifier: NodeId)

  /** A variable of the scope manager and the references it resolves. */
  datatype Variable = Variable(references: seq<Ref>)

  /** A scope: its `set` of variables by name, and its `upper` scope, absent at the global scope. */
  datatype Scope = Scope(vars: map<string, Variable>, upper: Option<Scope>)

  /** What the rule asks of the host: `getScope(node)` and `getDeclaredVariables(node)`. */
  datatype SourceCode = SourceCode(getScope: NodeId -> Scope, getDeclaredVariables: NodeId -> seq<Variable>)

  /** One text replacement of a fix: the node whose text is replaced, and the new text. */
  datatype Edit = Edit(target: NodeId, text: string)

  /** A reported violation: the node, the offending name, and the edits of its fix. */
  datatype Report = Report(node: NodeId, name: string, fixes: seq<Edit>)

  /**
   * The lookup at plugin.js:30 may read `upper` only when the name is not in
   * the node's own scope; at the global scope that would throw, so a check of
   * a non-conforming name needs one of the two.
   */
  predicate CanResolve(source: SourceCode, node: NodeId, name: string) {
    var scope := source.getScope(node);
    name in scope.vars || scope.upper.Some?
  }

  /** What a call of `check_identifier(node, name)` needs of the host. */
  predicate Checkable(source: SourceCode, node: NodeId, name: string) {
    IsSnakeCase(name) || CanResolve(source, node, name)
  }

  /**
   * plugin.js:30-41: the references a fix renames. The variable of that name
   * in the node's scope, else in the enclosing scope, else the first variable
   * the node declares, else none.
   */
  function References(source: SourceCode, node: NodeId, name: string): seq<Ref>
    requires CanResolve(source, node, name)
  {
    var scope := source.getScope(node);
    if name in scope.vars then scope.vars[name].references
    else if name in scope.upper.value.vars then scope.upper.value.vars[name].references
    else if |source.getDeclaredVariables(node)| > 0 then source.getDeclaredVariables(node)[0].references
    else []
  }

  /** The identifier nodes of a list of references, in order. */
  function Identifiers(references: seq<Ref>): seq<NodeId> {
    seq(|references|, i requires 0 <= i < |references| => references[i].identifier)
  }

  /** The nodes a list of edits targets, in order. */
  function Targets(edits: seq<Edit>): seq<NodeId> {
    seq(|edits|, i requires 0 <= i < |edits| => edits[i].target)
  }

  /** plugin.js:54-59: one edit per reference whose identifier is not the declaration node. */
  function ReferenceEdits(references: seq<Ref>, node: NodeId, snakeName: string): seq<Edit>
    decreases |references|
  {
    if references == [] then []
    else
      var last := references[|references| - 1];
      ReferenceEdits(references[..|references| - 1], node, snakeName)
        + if last.identifier != node then [Edit(last.identifier, snakeName)] else []
  }

  /** plugin.js:48-61: the declaration first, then the other references. */
  function FixList(node: NodeId, snakeName: string, references: seq<Ref>): seq<Edit> {
    [Edit(node, snakeName)] + ReferenceEdits(references, node, snakeName)
  }

  /**
   * The `fix(fixer)` callback (plugin.js:47-62): push the declaration's
   * edit, then walk the references and push an edit for each one at another
   * node.
   */
  method BuildFixes(node: NodeId, snakeName: string, references: seq<Ref>) returns (fixes: seq<Edit>)
    ensures fixes == FixList(node, snakeName, references)
  {
    fixes := [Edit(node, snakeName)];
    for i := 0 to |references|
      invariant fixes == [Edit(node, snakeName)] + ReferenceEdits(references[..i], node, snakeName)
    {
      assert references[..i + 1][..i] == references[..i];
      var ref := references[i];
      if ref.identifier != node {
        fixes := fixes + [Edit(ref.identifier, snakeName)];
      }
    }
    assert references[..|references|] == references;
  }

  /** The outcome of `check_identifier(node, name)`: nothing, or one report with its fix. */
  function Diagnose(source: SourceCode, node: NodeId, name: string): (r: Option<Report>)
    requires Checkable(source, node, name)
    ensures r.None? <==> IsSnakeCase(name)
  {
    if IsSnakeCase(name) then None
    else Some(Report(node, name, FixList(node, SnakeName(name), References(source, node, name))))
  }

  /**
   * plugin.js:22-65. A conforming name returns before any lookup, so it
   * needs nothing of the scope; otherwise the references are resolved by
   * the fallback chain and the fix is built.
   */
  method CheckIdentifier(source: SourceCode, node: NodeId, name: string) returns (report: Option<Report>)
    requires Checkable(source, node, name)
    ensures report == Diagnose(source, node, name)
  {
    report := None;
    if !IsSnakeCase(name) {
      var snakeName := SnakeName(name);
      var scope := source.getScope(node);
      var variable: Option<Variable>;
      if name in scope.vars {
        variable := Some(scope.vars[name]);
      } else if name in scope.upper.value.vars {
        variable := Some(scope.upper.value.vars[name]);
      } else {
        variable := None;
      }
      var references: seq<Ref> := [];
      if variable.Some? {
        references := variable.value.references;
      } else {
        var variables := source.getDeclaredVariables(node);
        if |variables| > 0 {
          references := variables[0].references;
        }
      }
      var fixes := BuildFixes(node, snakeName, references);
      report := Some(Report(node, name, fixes));
    }
  }

  // Properties of the fix list.

  lemma TargetsConcat(a: seq<Edit>, b: seq<Edit>)
    ensures Targets(a + b) == Targets(a) + Targets(b)
  {
  }

  lemma IdentifiersSnoc(references: seq<Ref>)
    requires references != []
    ensures Identifiers(references) ==
      Identifiers(references[..|references| - 1]) + [references[|references| - 1].identifier]
  {
  }

  /** Every edit of the reference part replaces with the same text. */
  lemma {:induction false} ReferenceEditsText(references: seq<Ref>, node: NodeId, snakeName: string)
    ensures forall e :: e in ReferenceEdits(references, node, snakeName) ==> e.text == snakeName
    decreases |references|
  {
    if references != [] {
      ReferenceEditsText(references[..|references| - 1], node, snakeName);
    }
  }

  /**
   * Exactly-once: the reference part never targets the declaration node,
   * and targets every other node exactly as often as it occurs among the
   * references.
   */
  lemma {:induction false} ReferenceEditsCount(references: seq<Ref>, node: NodeId, snakeName: string, x: NodeId)
    ensures multiset(Targets(ReferenceEdits(references, node, snakeName)))[x] ==
      if x == node then 0 else multiset(Identifiers(references))[x]
    decreases |references|
  {
    if references != [] {
      var init := references[..|references| - 1];
      var last := references[|references| - 1];
      var tail := if last.identifier != node then [Edit(last.identifier, snakeName)] else [];
      ReferenceEditsCount(init, node, snakeName, x);
      TargetsConcat(ReferenceEdits(init, node, snakeName), tail);
      IdentifiersSnoc(references);
    }
  }

  /** The reference part keeps the order of the references: it distributes over concatenation. */
  lemma {:induction false} ReferenceEditsConcat(a: seq<Ref>, b: seq<Ref>, node: NodeId, snakeName: string)
    ensures ReferenceEdits(a + b, node, snakeName) == ReferenceEdits(a, node, snakeName) + ReferenceEdits(b, node, snakeName)
    decreases |b|
  {
    if b == [] {
      assert a + b == a;
    } else {
      assert (a + b)[..|a + b| - 1] == a + b[..|b| - 1];
      ReferenceEditsConcat(a, b[..|b| - 1], node, snakeName);
    }
  }

  /** When no reference is at the declaration node, the edits after the first follow the references one for one. */
  lemma {:induction false} ReferenceEditsAll(references: seq<Ref>, node: NodeId, snakeName: string)
    requires node !in Identifiers(references)
    ensures Targets(ReferenceEdits(references, node, snakeName)) == Identifiers(references)
    decreases |references|
  {
    if references != [] {
      var init := references[..|references| - 1];
      IdentifiersSnoc(references);
      assert node !in Identifiers(init);
      ReferenceEditsAll(init, node, snakeName);
      TargetsConcat(ReferenceEdits(init, node, snakeName), [Edit(references[|references| - 1].identifier, snakeName)]);
    }
  }

  lemma FixListCount(node: NodeId, snakeName: string, references: seq<Ref>, x: NodeId)
    ensures multiset(Targets(FixList(node, snakeName, references)))[x] ==
      if x == node then 1 else multiset(Identifiers(references))[x]
  {
    var rest := ReferenceEdits(references, node, snakeName);
    TargetsConcat([Edit(node, snakeName)], rest);
    ReferenceEditsCount(references, node, snakeName, x);
  }

  /**
   * The fix of a report: its first edit renames the declaration node, all
   * edits use the same text, the declaration node is targeted exactly once,
   * every other node as often as a reference names it, and there is one
   * edit more than there are references at other nodes.
   */
  lemma FixListProperties(node: NodeId, snakeName: string, references: seq<Ref>)
    ensures var fixes := FixList(node, snakeName, references);
      && fixes[0] == Edit(node, snakeName)
      && (forall e :: e in fixes ==> e.text == snakeName)
      && multiset(Targets(fixes))[node] == 1
      && (forall x :: x != node ==> multiset(Targets(fixes))[x] == multiset(Identifiers(references))[x])
      && |fixes| == 1 + |references| - multiset(Identifiers(references))[node]
  {
    ReferenceEditsText(references, node, snakeName);
    FixListCount(node, snakeName, references, node);
    forall x | x != node
      ensures multiset(Targets(FixList(node, snakeName, references)))[x] == multiset(Identifiers(references))[x]
    {
      FixListCount(node, snakeName, references, x);
    }
    ReferenceEditsLength(references, node, snakeName);
  }

  lemma {:induction false} ReferenceEditsLength(references: seq<Ref>, node: NodeId, snakeName: string)
    ensures |ReferenceEdits(references, node, snakeName)| == |references| - multiset(Identifiers(references))[node]
    decreases |references|
  {
    if references != [] {
      ReferenceEditsLength(references[..|references| - 1], node, snakeName);
      IdentifiersSnoc(references);
    }
  }

  /** The fix covers exactly the declaration node and the nodes of the references. */
  lemma FixListCovers(node: NodeId, snakeName: string, references: seq<Ref>)
    ensures forall x :: x in Targets(FixList(node, snakeName, references)) <==> x == node || x in Identifiers(references)
  {
    forall x
      ensures x in Targets(FixList(node, snakeName, references)) <==> x == node || x in Identifiers(references)
    {
      FixListProperties(node, snakeName, references);
      assert x in Targets(FixList(node, snakeName, references)) <==> multiset(Targets(FixList(node, snakeName, references)))[x] > 0;
      assert x in Identifiers(references) <==> multiset(Identifiers(references))[x] > 0;
    }
  }

  /** Distinct identifier nodes occur once each. */
  lemma {:induction false} DistinctOccurOnce(references: seq<Ref>, x: NodeId)
    requires forall i, j :: 0 <= i < j < |references| ==> references[i].identifier != references[j].identifier
    ensures multiset(Identifiers(references))[x] <= 1
    decreases |references|
  {
    if references != [] {
      var init := references[..|references| - 1];
      IdentifiersSnoc(references);
      DistinctOccurOnce(init, x);
      if x == references[|references| - 1].identifier {
        assert x !in Identifiers(init);
      }
    }
  }

  /** When the references are at distinct nodes, no node is edited twice. */
  lemma FixListNoDuplicates(node: NodeId, snakeName: string, references: seq<Ref>)
    requires forall i, j :: 0 <= i < j < |references| ==> references[i].identifier != references[j].identifier
    ensures forall x :: multiset(Targets(FixList(node, snakeName, references)))[x] <= 1
  {
    FixListProperties(node, snakeName, references);
    forall x ensures multiset(Targets(FixList(node, snakeName, references)))[x] <= 1 {
      DistinctOccurOnce(references, x);
    }
  }

  // Properties of check_identifier.

  /** A conforming name is never reported, whatever the scopes (the lookup is never made). */
  lemma ConformingNotReported(source: SourceCode, node: NodeId, name: string)
    requires IsSnakeCase(name)
    ensures Checkable(source, node, name) && Diagnose(source, node, name) == None
  {
  }

  /**
   * A report on a non-conforming name carries the edits of `FixList` for the
   * transliterated name over the resolved references.
   */
  lemma ReportFix(source: SourceCode, node: NodeId, name: string)
    requires !IsSnakeCase(name) && CanResolve(source, node, name)
    ensures var r := Diagnose(source, node, name);
      && r.Some? && r.value.node == node && r.value.name == name
      && var refs := References(source, node, name);
      && r.value.fixes[0] == Edit(node, SnakeName(name))
      && (forall e :: e in r.value.fixes ==> e.text == SnakeName(name))
      && multiset(Targets(r.value.fixes))[node] == 1
      && (forall x :: x in Targets(r.value.fixes) <==> x == node || x in Identifiers(refs))
  {
    FixListProperties(node, SnakeName(name), References(source, node, name));
    FixListCovers(node, SnakeName(name), References(source, node, name));
  }

  /**
   * The fallback order of the lookup: the node's own scope wins over the
   * enclosing one, which wins over the declared variables.
   */
  lemma ResolutionOrder(source: SourceCode, node: NodeId, name: string)
    requires CanResolve(source, node, name)
    ensures var scope := source.getScope(node);
      var declared := source.getDeclaredVariables(node);
      && (name in scope.vars ==> References(source, node, name) == scope.vars[name].references)
      && (name !in scope.vars && name in scope.upper.value.vars ==>
            References(source, node, name) == scope.upper.value.vars[name].references)
      && (name !in scope.vars && name !in scope.upper.value.vars && |declared| > 0 ==>
            References(source, node, name) == declared[0].references)
  {
  }

  /** When neither scope nor the node's declarations know the name, the fix renames the declaration only. */
  lemma UnresolvedRenamesDeclarationOnly(source: SourceCode, node: NodeId, name: string)
    requires !IsSnakeCase(name) && CanResolve(source, node, name)
    requires name !in source.getScope(node).vars && name !in source.getScope(node).upper.value.vars
    requires source.getDeclaredVariables(node) == []
    ensures Diagnose(source, node, name) == Some(Report(node, name, [Edit(node, SnakeName(name))]))
  {
    assert References(source, node, name) == [];
    assert FixList(node, SnakeName(name), []) == [Edit(node, SnakeName(name))];
  }

  /**
   * `let myVar = 1; myVar + 1;` at the top level: the declaration (which is
   * also the variable's first reference) and the later read are both
   * renamed, each once.
   */
  lemma ExampleDeclarator(source: SourceCode)
    requires source.getScope(1) == Scope(map["myVar" := Variable([Ref(1), Ref(5)])], None)
    ensures Diagnose(source, 1, "myVar") == Some(Report(1, "myVar", [Edit(1, "my_var"), Edit(5, "my_var")]))
  {
    RejectsMixedCase("myVar", 0, 2);
    ExampleCamel();
    var refs := [Ref(1), Ref(5)];
    assert References(source, 1, "myVar") == refs;
    assert refs[..1] == [Ref(1)] && refs[..1][..0] == [];
    assert ReferenceEdits(refs, 1, "my_var") == [Edit(5, "my_var")];
    assert FixList(1, "my_var", refs) == [Edit(1, "my_var"), Edit(5, "my_var")];
    assert !IsSnakeCase("myVar") && SnakeName("myVar") == "my_var";
  }
}
