/**
 The collector `CamelCaseVisitor::enterNode`. The parser's tree is taken as the
 pre-order sequence of nodes the traverser enters; the visitor's two mutable
 fields become a `Visitor` value threaded through a left fold.
 */
module Collector {
  import opened PhpStrings
  import opened CamelCase

  datatype Option<T> = None | Some(value: T)

  /** The nodes the visitor distinguishes. A `Variable` whose name is an
      expression (`$$x`, `${...}`) has no static name, which is `None`. The
      variables listed by a `global` statement are entered on their own after
      the statement, as `Variable` nodes. */
  datatype Node =
    | GlobalStmt(vars: seq<Option<string>>)
    | Variable(name: Option<string>)
    | OtherNode

  /** The visitor's fields: `$replacements` and `$globalVariables`. */
  datatype Visitor = Visitor(replacements: map<string, string>, globals: seq<string>)

  const Fresh: Visitor := Visitor(map[], [])

  /** The text of the `T_VARIABLE` token for a variable called `name`. */
  function Sigil(name: string): (t: string)
    ensures |t| == |name| + 1 && t[0] == '$' && t[1..] == name
  {
    "$" + name
  }

  /** `strpos($name, '_') === 0`: superglobals such as `_SERVER`. */
  predicate IsSuperglobal(name: string) {
    |name| > 0 && name[0] == Underscore
  }

  /** The statically named targets of a `global` statement, in order. */
  function StaticNames(vars: seq<Option<string>>): (names: seq<string>)
    ensures |names| <= |vars|
    ensures forall n :: n in names <==> Some(n) in vars
  {
    if |vars| == 0 then []
    else
      var last := vars[|vars| - 1];
      assert vars == vars[..|vars| - 1] + [last];
      StaticNames(vars[..|vars| - 1]) + (if last.Some? then [last.value] else [])
  }

  /** A variable with static name `name` gets a replacement entry when it is
      no superglobal, is not yet recorded as global, and the policy renames it. */
  predicate Eligible(name: string, globals: seq<string>) {
    !IsSuperglobal(name) && name !in globals && ToCamelCase(name) != name
  }

  /** The shape every replacement entry has: `'$'.n => '$'.toCamelCase(n)`
      for a name `n` that is no superglobal and that the policy changes. */
  predicate ValidEntry(key: string, value: string) {
    |key| > 0 && key[0] == '$' && !IsSuperglobal(key[1..]) &&
    value == Sigil(ToCamelCase(key[1..])) && value != key
  }

  predicate WellFormed(m: map<string, string>) {
    forall k :: k in m ==> ValidEntry(k, m[k])
  }

  /** `enterNode` for one node. Existing entries are never lost, and an
      entry, once made, keeps the value `toCamelCase` gives its name. */
  function EnterNode(v: Visitor, node: Node): (r: Visitor)
    ensures (node.Variable? && node.name.Some? &&
             (IsSuperglobal(node.name.value) || node.name.value in v.globals)) ==> r == v
    ensures !node.GlobalStmt? ==> r.globals == v.globals
    ensures v.replacements.Keys <= r.replacements.Keys
    ensures WellFormed(v.replacements) ==>
              WellFormed(r.replacements) &&
              forall k :: k in v.replacements ==> r.replacements[k] == v.replacements[k]
  {
    match node
    case GlobalStmt(vars) =>
      v.(globals := v.globals + StaticNames(vars))
    case Variable(Some(name)) =>
      if IsSuperglobal(name) || name in v.globals then v
      else
        var camel := ToCamelCase(name);
        if camel != name then
          assert Sigil(name)[1..] == name;
          assert ValidEntry(Sigil(name), Sigil(camel));
          v.(replacements := v.replacements[Sigil(name) := Sigil(camel)])
        else v
    case Variable(None) => v
    case OtherNode => v
  }

  /** Every statically named `global` target among `nodes`, in order. */
  function DeclaredGlobals(nodes: seq<Node>): (names: seq<string>)
  {
    if |nodes| == 0 then []
    else
      var last := nodes[|nodes| - 1];
      DeclaredGlobals(nodes[..|nodes| - 1]) +
        (if last.GlobalStmt? then StaticNames(last.vars) else [])
  }

  /** The traverser entering `nodes` in order, starting from `v`. */
  function Traverse(v: Visitor, nodes: seq<Node>): (r: Visitor)
    ensures r.globals == v.globals + DeclaredGlobals(nodes)
    ensures WellFormed(v.replacements) ==> WellFormed(r.replacements)
  {
    if |nodes| == 0 then v
    else
      var p, last := nodes[..|nodes| - 1], nodes[|nodes| - 1];
      var w := Traverse(v, p);
      var added := if last.GlobalStmt? then StaticNames(last.vars) else [];
      assert v.globals + DeclaredGlobals(nodes) == w.globals + added;
      EnterNode(w, last)
  }

  /** The visitor's state after the whole tree. */
  function Collect(nodes: seq<Node>): (r: Visitor)
    ensures r.globals == DeclaredGlobals(nodes)
    ensures WellFormed(r.replacements)
  {
    Traverse(Fresh, nodes)
  }

  /** Node `i` makes an entry with key `key`: it is a variable named `n`,
      `key` is `'$'.n`, and `n` is eligible given the globals declared by the
      nodes before it. */
  predicate AddsKey(nodes: seq<Node>, i: int, key: string) {
    0 <= i < |nodes| && nodes[i].Variable? && nodes[i].name.Some? &&
    key == Sigil(nodes[i].name.value) &&
    Eligible(nodes[i].name.value, DeclaredGlobals(nodes[..i]))
  }

  /** A key is in the collected map exactly when some node adds it. */
  lemma {:induction false} CollectKeysIff(nodes: seq<Node>, key: string)
    ensures key in Collect(nodes).replacements <==>
              exists i :: AddsKey(nodes, i, key)
  {
    if key in Collect(nodes).replacements {
      CollectKeysSound(nodes, key);
    }
    if i :| AddsKey(nodes, i, key) {
      CollectKeysComplete(nodes, i, key);
    }
  }

  /** Every key of the collected map was added by some node. */
  lemma {:induction false} CollectKeysSound(nodes: seq<Node>, key: string)
    requires key in Collect(nodes).replacements
    ensures exists i :: AddsKey(nodes, i, key)
  {
    var p := nodes[..|nodes| - 1];
    CollectKeysStep(nodes, key);
    if !AddsKey(nodes, |p|, key) {
      CollectKeysSound(p, key);
      var i :| AddsKey(p, i, key);
      AddsKeyPrefix(nodes, i, key);
    }
  }

  /** The key a node adds stays in the map to the end. */
  lemma {:induction false} CollectKeysComplete(nodes: seq<Node>, i: int, key: string)
    requires AddsKey(nodes, i, key)
    ensures key in Collect(nodes).replacements
  {
    var p := nodes[..|nodes| - 1];
    CollectKeysStep(nodes, key);
    if i < |p| {
      AddsKeyPrefix(nodes, i, key);
      CollectKeysComplete(p, i, key);
    }
  }

  /** Whether node `i` adds a key depends only on the nodes up to `i`. */
  lemma {:induction false} AddsKeyPrefix(nodes: seq<Node>, i: int, key: string)
    requires 0 <= i < |nodes| - 1
    ensures AddsKey(nodes, i, key) <==> AddsKey(nodes[..|nodes| - 1], i, key)
  {
    var p := nodes[..|nodes| - 1];
    assert p[i] == nodes[i];
    assert nodes[..i] == p[..i];
  }

  /** Entering the last node adds at most the key that node adds. */
  lemma {:induction false} CollectKeysStep(nodes: seq<Node>, key: string)
    requires |nodes| > 0
    ensures key in Collect(nodes).replacements <==>
              key in Collect(nodes[..|nodes| - 1]).replacements ||
              AddsKey(nodes, |nodes| - 1, key)
  {
    var p := nodes[..|nodes| - 1];
    assert nodes[..|p|] == p;
    var before := Collect(p);
    assert before.globals == DeclaredGlobals(p);
    assert Collect(nodes) == EnterNode(before, nodes[|p|]);
  }

  /** A name declared by a `global` statement is among the declared globals of
      every sequence of nodes that contains that statement. */
  lemma {:induction false} DeclaredGlobalsContains(nodes: seq<Node>, j: int, name: string)
    requires 0 <= j < |nodes| && nodes[j].GlobalStmt? && Some(name) in nodes[j].vars
    ensures name in DeclaredGlobals(nodes)
  {
    var p := nodes[..|nodes| - 1];
    if j < |p| {
      assert p[j] == nodes[j];
      DeclaredGlobalsContains(p, j, name);
    }
  }

  /** A name is among the declared globals exactly when some `global`
      statement among `nodes` lists it as a static name. */
  lemma {:induction false} DeclaredGlobalsIff(nodes: seq<Node>, name: string)
    ensures name in DeclaredGlobals(nodes) <==>
              exists j :: 0 <= j < |nodes| && nodes[j].GlobalStmt? && Some(name) in nodes[j].vars
  {
    if |nodes| > 0 {
      var p := nodes[..|nodes| - 1];
      DeclaredGlobalsIff(p, name);
      if name in DeclaredGlobals(nodes) && name !in DeclaredGlobals(p) {
        assert nodes[|p|].GlobalStmt? && Some(name) in nodes[|p|].vars;
      } else if name in DeclaredGlobals(p) {
        var j :| 0 <= j < |p| && p[j].GlobalStmt? && Some(name) in p[j].vars;
        assert nodes[j] == p[j];
      }
      if j :| 0 <= j < |nodes| && nodes[j].GlobalStmt? && Some(name) in nodes[j].vars {
        DeclaredGlobalsContains(nodes, j, name);
      }
    }
  }

  /** Superglobal names never get an entry. */
  lemma {:induction false} SuperglobalNeverKey(nodes: seq<Node>, name: string)
    requires IsSuperglobal(name)
    ensures Sigil(name) !in Collect(nodes).replacements
  {
    assert Sigil(name)[1..] == name;
  }

  /** Every value is `'$'` followed by a name with no underscore, and that
      name is a fixpoint of the policy. */
  lemma {:induction false} ValuesAreCamel(nodes: seq<Node>, key: string)
    requires key in Collect(nodes).replacements
    ensures var value := Collect(nodes).replacements[key];
            |value| > 0 && value[0] == '$' && Underscore !in value[1..] &&
            ToCamelCase(value[1..]) == value[1..]
  {
    var value := Collect(nodes).replacements[key];
    assert ValidEntry(key, value);
    var name := key[1..];
    var camel := ToCamelCase(name);
    assert value == Sigil(camel);
    assert camel != name;
    assert Underscore !in camel;
    ToCamelCaseIdempotent(name);
  }

  /** A name whose `global` statement is entered before every use of it as a
      variable never gets an entry. */
  lemma {:induction false} GlobalBeforeUseNeverKey(nodes: seq<Node>, j: int, name: string)
    requires 0 <= j < |nodes| && nodes[j].GlobalStmt? && Some(name) in nodes[j].vars
    requires forall i :: 0 <= i < |nodes| && nodes[i] == Variable(Some(name)) ==> j < i
    ensures Sigil(name) !in Collect(nodes).replacements
  {
    CollectKeysIff(nodes, Sigil(name));
    if Sigil(name) in Collect(nodes).replacements {
      var i :| AddsKey(nodes, i, Sigil(name));
      var n := nodes[i].name.value;
      assert n == Sigil(n)[1..] == Sigil(name)[1..] == name;
      assert nodes[..i][j] == nodes[j];
      DeclaredGlobalsContains(nodes[..i], j, name);
      assert false;
    }
  }

  /** The exclusion is order dependent: a variable entered before its `global`
      statement still gets an entry, although its later use is skipped. The
      nodes are those of `<?php $n; global $n;` in pre-order: the expression
      statement, its variable, the `global` statement, its variable. */
  lemma {:induction false} GlobalAfterUseStillRenamed(nodes: seq<Node>, name: string)
    requires !IsSuperglobal(name) && ToCamelCase(name) != name
    requires nodes == [OtherNode, Variable(Some(name)), GlobalStmt([Some(name)]),
                       Variable(Some(name))]
    ensures Collect(nodes).replacements == map[Sigil(name) := Sigil(ToCamelCase(name))]
  {
    var rest := nodes[1..];
    assert nodes == [OtherNode] + rest;
    OtherNodeFirst(Fresh, rest);
    UseGlobalUse(rest, name);
  }

  /** The variable nodes of `$n; global $n;`, without the statement node. */
  lemma {:induction false} UseGlobalUse(nodes: seq<Node>, name: string)
    requires !IsSuperglobal(name) && ToCamelCase(name) != name
    requires nodes == [Variable(Some(name)), GlobalStmt([Some(name)]), Variable(Some(name))]
    ensures Collect(nodes).replacements == map[Sigil(name) := Sigil(ToCamelCase(name))]
  {
    var use, decl := nodes[0], nodes[1];
    assert nodes == [use, decl] + [use];
    UseThenGlobal(name);
    TraverseSnoc(Fresh, [use, decl], use);
  }

  /** After `$n` and then `global $n`, the entry exists and `n` is global. */
  lemma {:induction false} UseThenGlobal(name: string)
    requires !IsSuperglobal(name) && ToCamelCase(name) != name
    ensures Collect([Variable(Some(name)), GlobalStmt([Some(name)])])
            == Visitor(map[Sigil(name) := Sigil(ToCamelCase(name))], [name])
  {
    var use, decl := Variable(Some(name)), GlobalStmt([Some(name)]);
    var entry := map[Sigil(name) := Sigil(ToCamelCase(name))];
    FirstUse(name);
    assert StaticNames([Some(name)]) == [name] by {
      assert [Some(name)][..0] == [];
    }
    assert EnterNode(Visitor(entry, []), decl) == Visitor(entry, [name]);
    TraverseSnoc(Fresh, [use], decl);
    assert [use] + [decl] == [use, decl];
  }

  /** The first use of a name the policy changes adds its entry. */
  lemma {:induction false} FirstUse(name: string)
    requires !IsSuperglobal(name) && ToCamelCase(name) != name
    ensures Collect([Variable(Some(name))])
            == Visitor(map[Sigil(name) := Sigil(ToCamelCase(name))], [])
  {
    var use := Variable(Some(name));
    TraverseSnoc(Fresh, [], use);
    assert [] + [use] == [use];
  }

  /** A node that is neither a variable nor a `global` statement, entered
      first, leaves the visitor as it found it. */
  lemma {:induction false} OtherNodeFirst(v: Visitor, nodes: seq<Node>)
    ensures Traverse(v, [OtherNode] + nodes) == Traverse(v, nodes)
  {
    if |nodes| == 0 {
      TraverseSnoc(v, [], OtherNode);
      assert [] + [OtherNode] == [OtherNode] + nodes;
    } else {
      var p := nodes[..|nodes| - 1];
      OtherNodeFirst(v, p);
      assert [OtherNode] + nodes == ([OtherNode] + p) + [nodes[|nodes| - 1]];
      TraverseSnoc(v, [OtherNode] + p, nodes[|nodes| - 1]);
    }
  }

  /** Entering one more node. */
  lemma {:induction false} TraverseSnoc(v: Visitor, p: seq<Node>, node: Node)
    ensures Traverse(v, p + [node]) == EnterNode(Traverse(v, p), node)
  {
    assert (p + [node])[..|p|] == p;
  }

  /** A tree all of whose variable names are already fixpoints of the policy
      yields no entry, so a second pass over renamed code changes nothing. */
  lemma {:induction false} FixpointNamesCollectNothing(nodes: seq<Node>)
    requires forall i :: 0 <= i < |nodes| && nodes[i].Variable? && nodes[i].name.Some? ==>
               ToCamelCase(nodes[i].name.value) == nodes[i].name.value
    ensures Collect(nodes).replacements == map[]
  {
    if |nodes| > 0 {
      var p := nodes[..|nodes| - 1];
      assert forall i :: 0 <= i < |p| ==> p[i] == nodes[i];
      FixpointNamesCollectNothing(p);
    }
  }
}
