/**
 * The permission tree of src/permissions.rs: one root per role, and under
 * each root one linear chain of pattern nodes per permission rule. A query
 * asks whether some role of a chain of role names has a root that grants a
 * concrete resource path under an environment.
 */
module Permissions {
  import Rules
  import opened Environments

  /** The effect stored in a node; `None` marks the inner nodes of a rule's chain. */
  datatype Permission = Allow | Deny | None

  /** `From<Permission> for bool`: only `Allow` is true. */
  function ToBool(p: Permission): (b: bool)
    ensures b <==> p == Allow
    ensures p == Deny || p == None ==> !b
  {
    match p
    case Allow => true
    case _ => false
  }

  /** The conversion of a rule's effect into a node's effect. */
  function FromParsed(p: Rules.Permission): (q: Permission)
    ensures q != None
    ensures q == Allow <==> p == Rules.Allow
  {
    match p
    case Allow => Allow
    case Deny => Deny
  }

  /** The four node kinds; every node owns its sub-nodes, in insertion order. */
  datatype Node =
    | Literal(resourceName: string, permission: Permission, subNodes: seq<Node>)
    | Variable(variableName: string, permission: Permission, subNodes: seq<Node>)
    | Set(setName: string, permission: Permission, subNodes: seq<Node>)
    | Universal(permission: Permission, subNodes: seq<Node>)

  /** A role's root: it matches no segment, and its permission is never read. */
  datatype RootNode = RootNode(permission: Permission, subNodes: seq<Node>)

  datatype PermissionTree = PermissionTree(rootNodes: map<Rules.RoleName, RootNode>)

  // ---------------------------------------------------------------------
  // Evaluation
  // ---------------------------------------------------------------------

  /**
   * A node that reads no segment: a Variable whose variable is unbound, or a
   * Set whose set is unknown. Only such a node can be asked about an empty path
   * without panicking.
   */
  predicate Unmatchable(n: Node, env: Environment)
  {
    (n.Variable? && n.variableName !in env.variables) || (n.Set? && n.setName !in env.sets)
  }

  /** Every node of `kids` reads no segment. */
  predicate AllUnmatchable(kids: seq<Node>, env: Environment)
  {
    forall i :: 0 <= i < |kids| ==> Unmatchable(kids[i], env)
  }

  /** `has_permission_for` of the Literal, Variable, Set and Universal nodes. */
  function NodeHasPermissionFor(n: Node, segments: seq<string>, env: Environment): (r: bool)
    requires |segments| > 0 || Unmatchable(n, env)
    ensures r ==> |segments| > 0 && SegmentMatches(KindOf(n), segments[0], env)
    decreases n
  {
    match n
    case Literal(name, _, kids) =>
      if segments[0] == name then
        if |segments| == 1 then true else SubNodesHavePermissionFor(kids, segments[1..], env)
      else false
    case Variable(name, p, kids) =>
      if name in env.variables && segments[0] == env.variables[name] then
        if |segments| == 1 then ToBool(p) else SubNodesHavePermissionFor(kids, segments[1..], env)
      else false
    case Set(name, p, kids) =>
      if name in env.sets && segments[0] in env.sets[name] then
        if |segments| == 1 then ToBool(p) else SubNodesHavePermissionFor(kids, segments[1..], env)
      else false
    case Universal(p, kids) =>
      if |segments| == 1 then ToBool(p) else SubNodesHavePermissionFor(kids, segments[1..], env)
  }

  /**
   * `sub_node_has_permission_for`: `any` over the sub-nodes. The path may be
   * empty only when no sub-node reads a segment.
   */
  function SubNodesHavePermissionFor(kids: seq<Node>, segments: seq<string>, env: Environment): (r: bool)
    requires |segments| > 0 || AllUnmatchable(kids, env)
    ensures r <==> exists i :: 0 <= i < |kids| && NodeHasPermissionFor(kids[i], segments, env)
    decreases kids
  {
    if kids == [] then false
    else NodeHasPermissionFor(kids[0], segments, env) || SubNodesHavePermissionFor(kids[1..], segments, env)
  }

  /** The root's `has_permission_for`: its sub-nodes on the whole path. */
  function RootHasPermissionFor(root: RootNode, segments: seq<string>, env: Environment): (r: bool)
    requires |segments| > 0 || AllUnmatchable(root.subNodes, env)
    ensures r <==> exists i :: 0 <= i < |root.subNodes| && NodeHasPermissionFor(root.subNodes[i], segments, env)
    ensures root.subNodes == [] ==> !r
  {
    SubNodesHavePermissionFor(root.subNodes, segments, env)
  }

  /**
   * On an empty path the tree query evaluates every sub-node of every root
   * of the chain, and panics at the first one that reads a segment; this is
   * the condition under which it does not.
   */
  predicate QueryDefined(tree: PermissionTree, names: seq<Rules.RoleName>, resource: seq<string>, env: Environment)
  {
    |resource| > 0 ||
    forall i :: 0 <= i < |names| && names[i] in tree.rootNodes ==> AllUnmatchable(tree.rootNodes[names[i]].subNodes, env)
  }

  /** `PermissionTree::has_permission_for`: `any` over the role names; a name without a root gives false. */
  function HasPermissionFor(tree: PermissionTree, names: seq<Rules.RoleName>, resource: seq<string>, env: Environment): (r: bool)
    requires QueryDefined(tree, names, resource, env)
    ensures r <==> exists i :: 0 <= i < |names| && names[i] in tree.rootNodes &&
                              RootHasPermissionFor(tree.rootNodes[names[i]], resource, env)
  {
    if names == [] then false
    else
      (names[0] in tree.rootNodes && RootHasPermissionFor(tree.rootNodes[names[0]], resource, env)) ||
      HasPermissionFor(tree, names[1..], resource, env)
  }

  // ---------------------------------------------------------------------
  // A reference semantics: granting paths
  // ---------------------------------------------------------------------

  /** The pattern kind a node matches with. */
  function KindOf(n: Node): (k: Rules.PermissionKind)
    ensures k.Universal? <==> n.Universal?
  {
    match n
    case Literal(name, _, _) => Rules.Literal(name)
    case Variable(name, _, _) => Rules.Variable(name)
    case Set(name, _, _) => Rules.Set(name)
    case Universal(_, _) => Rules.Universal
  }

  /** Whether a pattern kind matches one path segment under an environment. */
  predicate SegmentMatches(k: Rules.PermissionKind, segment: string, env: Environment)
  {
    match k
    case Literal(name) => segment == name
    case Variable(name) => name in env.variables && env.variables[name] == segment
    case Set(name) => name in env.sets && segment in env.sets[name]
    case Universal => true
  }

  /** Whether a node, matched on the last segment, grants: a Literal always does. */
  predicate GrantsAtEnd(n: Node)
  {
    n.Literal? || n.permission == Allow
  }

  /**
   * A sequence of nodes, each a sub-node of the one before, matching the path
   * segment by segment and ending in a node that grants.
   */
  ghost predicate IsGrantingPath(nodes: seq<Node>, segments: seq<string>, env: Environment)
  {
    |nodes| == |segments| > 0 &&
    (forall i :: 0 <= i < |nodes| ==> SegmentMatches(KindOf(nodes[i]), segments[i], env)) &&
    (forall i :: 0 < i < |nodes| ==> nodes[i] in nodes[i - 1].subNodes) &&
    GrantsAtEnd(nodes[|nodes| - 1])
  }

  /** One evaluation step of any node, stated uniformly over the four kinds. */
  lemma NodeEvalStep(n: Node, segments: seq<string>, env: Environment)
    requires |segments| > 0
    ensures NodeHasPermissionFor(n, segments, env) <==>
              SegmentMatches(KindOf(n), segments[0], env) &&
              (if |segments| == 1 then GrantsAtEnd(n) else SubNodesHavePermissionFor(n.subNodes, segments[1..], env))
  {
  }

  /** A node matching the first segment extends a granting sequence that starts at one of its sub-nodes. */
  lemma ConsGrantingPath(n: Node, tail: seq<Node>, segments: seq<string>, env: Environment)
    requires |segments| > 1 && IsGrantingPath(tail, segments[1..], env) && tail[0] in n.subNodes
    requires SegmentMatches(KindOf(n), segments[0], env)
    ensures IsGrantingPath([n] + tail, segments, env)
  {
    var nodes := [n] + tail;
    forall j | 0 < j < |nodes|
      ensures SegmentMatches(KindOf(nodes[j]), segments[j], env)
    {
      assert nodes[j] == tail[j - 1] && segments[j] == segments[1..][j - 1];
    }
    forall j | 1 < j < |nodes|
      ensures nodes[j] in nodes[j - 1].subNodes
    {
      assert nodes[j] == tail[j - 1] && nodes[j - 1] == tail[j - 2];
    }
  }

  /** A node that grants a path heads a granting sequence of nodes for it. */
  lemma {:induction false} GrantingPathOf(n: Node, segments: seq<string>, env: Environment) returns (nodes: seq<Node>)
    requires |segments| > 0 && NodeHasPermissionFor(n, segments, env)
    ensures IsGrantingPath(nodes, segments, env) && nodes[0] == n
    decreases |segments|
  {
    NodeEvalStep(n, segments, env);
    if |segments| == 1 {
      nodes := [n];
    } else {
      var i :| 0 <= i < |n.subNodes| && NodeHasPermissionFor(n.subNodes[i], segments[1..], env);
      var tail := GrantingPathOf(n.subNodes[i], segments[1..], env);
      ConsGrantingPath(n, tail, segments, env);
      nodes := [n] + tail;
    }
  }

  /** The head of a granting sequence of nodes grants the path. */
  lemma {:induction false} GrantingPathGrants(nodes: seq<Node>, segments: seq<string>, env: Environment)
    requires IsGrantingPath(nodes, segments, env)
    ensures NodeHasPermissionFor(nodes[0], segments, env)
    decreases |segments|
  {
    NodeEvalStep(nodes[0], segments, env);
    if |segments| > 1 {
      var tail := nodes[1..];
      forall j | 0 <= j < |tail|
        ensures SegmentMatches(KindOf(tail[j]), segments[1..][j], env)
      {
        assert tail[j] == nodes[j + 1] && segments[1..][j] == segments[j + 1];
      }
      forall j | 0 < j < |tail|
        ensures tail[j] in tail[j - 1].subNodes
      {
        assert tail[j] == nodes[j + 1] && tail[j - 1] == nodes[j];
      }
      GrantingPathGrants(tail, segments[1..], env);
      assert nodes[1] in nodes[0].subNodes;
    }
  }

  /** A node grants a path exactly when a granting sequence of nodes starts at it. */
  lemma NodeGrantsIffGrantingPath(n: Node, segments: seq<string>, env: Environment)
    requires |segments| > 0
    ensures NodeHasPermissionFor(n, segments, env) <==>
              exists nodes :: IsGrantingPath(nodes, segments, env) && nodes[0] == n
  {
    if NodeHasPermissionFor(n, segments, env) {
      var nodes := GrantingPathOf(n, segments, env);
    }
    if exists nodes :: IsGrantingPath(nodes, segments, env) && nodes[0] == n {
      var nodes :| IsGrantingPath(nodes, segments, env) && nodes[0] == n;
      GrantingPathGrants(nodes, segments, env);
    }
  }

  // ---------------------------------------------------------------------
  // Properties of the individual node kinds
  // ---------------------------------------------------------------------

  /** A Literal matched on the last segment grants, whatever permission it stores. */
  lemma LiteralLastSegmentGrants(name: string, p: Permission, kids: seq<Node>, env: Environment)
    ensures NodeHasPermissionFor(Literal(name, p, kids), [name], env)
  {
  }

  /** A Literal whose name differs from the first segment contributes false. */
  lemma LiteralMismatchDenies(n: Node, segments: seq<string>, env: Environment)
    requires n.Literal? && |segments| > 0 && segments[0] != n.resourceName
    ensures !NodeHasPermissionFor(n, segments, env)
  {
  }

  /** A Variable node grants only when its variable is bound to the first segment. */
  lemma VariableNeedsBinding(n: Node, segments: seq<string>, env: Environment)
    requires n.Variable? && |segments| > 0
    ensures NodeHasPermissionFor(n, segments, env) ==>
              n.variableName in env.variables && env.variables[n.variableName] == segments[0]
    ensures n.variableName !in env.variables ==> !NodeHasPermissionFor(n, segments, env)
  {
  }

  /** A Set node grants only when its set exists and holds the first segment. */
  lemma SetNeedsMembership(n: Node, segments: seq<string>, env: Environment)
    requires n.Set? && |segments| > 0
    ensures NodeHasPermissionFor(n, segments, env) ==>
              n.setName in env.sets && segments[0] in env.sets[n.setName]
    ensures n.setName !in env.sets ==> !NodeHasPermissionFor(n, segments, env)
  {
  }

  /** A Universal node matches any segment: its permission on the last one, its sub-nodes otherwise. */
  lemma UniversalMatchesAnySegment(n: Node, segments: seq<string>, env: Environment)
    requires n.Universal? && |segments| > 0
    ensures |segments| == 1 ==> (NodeHasPermissionFor(n, segments, env) <==> n.permission == Allow)
    ensures |segments| > 1 ==>
              (NodeHasPermissionFor(n, segments, env) <==> SubNodesHavePermissionFor(n.subNodes, segments[1..], env))
  {
  }

  /** On the last segment, a matched Variable, Set or Universal node grants iff it stores `Allow`. */
  lemma TerminalNonLiteralNeedsAllow(n: Node, segment: string, env: Environment)
    requires !n.Literal? && SegmentMatches(KindOf(n), segment, env)
    ensures NodeHasPermissionFor(n, [segment], env) <==> n.permission == Allow
  {
  }

  /** Under the empty environment no Variable or Set node matches. */
  lemma EmptyEnvironmentFailsClosed(n: Node, segments: seq<string>)
    requires (n.Variable? || n.Set?) && |segments| > 0
    ensures !NodeHasPermissionFor(n, segments, Empty())
  {
  }

  /** The permission stored in a root plays no part in its evaluation. */
  lemma RootPermissionIgnored(p: Permission, q: Permission, kids: seq<Node>, segments: seq<string>, env: Environment)
    requires |segments| > 0 || AllUnmatchable(kids, env)
    ensures RootHasPermissionFor(RootNode(p, kids), segments, env) == RootHasPermissionFor(RootNode(q, kids), segments, env)
  {
  }

  // ---------------------------------------------------------------------
  // Building
  // ---------------------------------------------------------------------

  /** A node of the kind a pattern segment names. */
  function NewNode(kind: Rules.PermissionKind, permission: Permission, subNodes: seq<Node>): (n: Node)
    ensures KindOf(n) == kind
    ensures n.permission == permission && n.subNodes == subNodes
  {
    match kind
    case Literal(name) => Literal(name, permission, subNodes)
    case Variable(name) => Variable(name, permission, subNodes)
    case Set(name) => Set(name, permission, subNodes)
    case Universal => Universal(permission, subNodes)
  }

  /**
   * The chain that `add_permission_rule` hangs under a node for one rule:
   * one node per resource segment, only the deepest one carrying the rule's effect.
   */
  function NewChain(p: Rules.Permission, resource: Rules.Resource): (n: Node)
    requires |resource| > 0
    ensures KindOf(n) == resource[0]
    ensures |Spine(n)| == |resource|
    decreases |resource|
  {
    var atDeepestLevel := |resource| == 1;
    var permission := if atDeepestLevel then FromParsed(p) else None;
    NewNode(resource[0], permission, if atDeepestLevel then [] else [NewChain(p, resource[1..])])
  }

  /** `add_permission_rule` on a root: the rule's chain is appended as a new last sub-node. */
  function AddPermissionRule(root: RootNode, p: Rules.Permission, resource: Rules.Resource): (r: RootNode)
    requires |resource| > 0
    ensures r.permission == root.permission
    ensures |r.subNodes| == |root.subNodes| + 1 && r.subNodes[..|root.subNodes|] == root.subNodes
    ensures r.subNodes[|root.subNodes|] == NewChain(p, resource)
  {
    root.(subNodes := root.subNodes + [NewChain(p, resource)])
  }

  /** Adding a rule to a root ORs the rule's chain into the root's answer. */
  lemma AddRuleOrsChain(root: RootNode, p: Rules.Permission, resource: Rules.Resource, segments: seq<string>, env: Environment)
    requires |resource| > 0 && |segments| > 0
    ensures RootHasPermissionFor(AddPermissionRule(root, p, resource), segments, env) <==>
              RootHasPermissionFor(root, segments, env) || NodeHasPermissionFor(NewChain(p, resource), segments, env)
  {
    var r := AddPermissionRule(root, p, resource);
    assert forall i :: 0 <= i < |root.subNodes| ==> r.subNodes[i] == root.subNodes[i];
  }

  /** The nodes of a chain, following each node's first sub-node. */
  function Spine(n: Node): (s: seq<Node>)
    ensures |s| > 0 && s[0] == n
    decreases n
  {
    if n.subNodes == [] then [n] else [n] + Spine(n.subNodes[0])
  }

  /** The i-th node of a rule's chain is the chain of the pattern's suffix from i. */
  lemma {:induction false} SpineOfChain(p: Rules.Permission, resource: Rules.Resource)
    requires |resource| > 0
    ensures var s := Spine(NewChain(p, resource));
      |s| == |resource| && forall i :: 0 <= i < |s| ==> s[i] == NewChain(p, resource[i..])
    decreases |resource|
  {
    var n := NewChain(p, resource);
    if |resource| > 1 {
      var tail := NewChain(p, resource[1..]);
      SpineOfChain(p, resource[1..]);
      assert n.subNodes == [tail];
      var s := Spine(n);
      assert s == [n] + Spine(tail);
      forall i | 0 < i < |s| ensures s[i] == NewChain(p, resource[i..]) {
        assert s[i] == Spine(tail)[i - 1];
        assert resource[1..][i - 1..] == resource[i..];
      }
    }
  }

  /**
   * A rule's chain has one node per resource segment, in pattern order;
   * every node but the last has exactly one sub-node and no effect, and
   * the last has no sub-node and the rule's effect.
   */
  lemma ChainShape(p: Rules.Permission, resource: Rules.Resource)
    requires |resource| > 0
    ensures var s := Spine(NewChain(p, resource));
      |s| == |resource| &&
      (forall i :: 0 <= i < |s| ==> KindOf(s[i]) == resource[i]) &&
      (forall i :: 0 <= i < |s| - 1 ==> s[i].permission == None && s[i].subNodes == [s[i + 1]]) &&
      s[|s| - 1].permission == FromParsed(p) && s[|s| - 1].subNodes == []
  {
    SpineOfChain(p, resource);
    var s := Spine(NewChain(p, resource));
    forall i | 0 <= i < |s| - 1
      ensures s[i].permission == None && s[i].subNodes == [s[i + 1]]
    {
      assert resource[i..][1..] == resource[i + 1..];
    }
  }

  /**
   * What a single rule grants: the path is no longer than the pattern, every
   * segment matches its pattern kind, and the pattern node reached by the last
   * segment is a Literal, or is the pattern's last node and the rule allows.
   */
  predicate RuleGrants(p: Rules.Permission, resource: Rules.Resource, segments: seq<string>, env: Environment)
  {
    0 < |segments| <= |resource| &&
    (forall i :: 0 <= i < |segments| ==> SegmentMatches(resource[i], segments[i], env)) &&
    (resource[|segments| - 1].Literal? || (|segments| == |resource| && p == Rules.Allow))
  }

  /** A rule's chain grants a path exactly when the rule does. */
  lemma {:induction false} ChainGrantsIffRuleGrants(p: Rules.Permission, resource: Rules.Resource, segments: seq<string>, env: Environment)
    requires |resource| > 0 && |segments| > 0
    ensures NodeHasPermissionFor(NewChain(p, resource), segments, env) <==> RuleGrants(p, resource, segments, env)
    decreases |resource|
  {
    var n := NewChain(p, resource);
    NodeEvalStep(n, segments, env);
    if |segments| > 1 && |resource| > 1 {
      var tail := NewChain(p, resource[1..]);
      ChainGrantsIffRuleGrants(p, resource[1..], segments[1..], env);
      assert n.subNodes == [tail];
      if RuleGrants(p, resource[1..], segments[1..], env) && SegmentMatches(resource[0], segments[0], env) {
        forall i | 0 <= i < |segments|
          ensures SegmentMatches(resource[i], segments[i], env)
        {
          if i > 0 {
            assert resource[i] == resource[1..][i - 1] && segments[i] == segments[1..][i - 1];
          }
        }
      }
      if RuleGrants(p, resource, segments, env) {
        forall i | 0 <= i < |segments| - 1
          ensures SegmentMatches(resource[1..][i], segments[1..][i], env)
        {
          assert resource[1..][i] == resource[i + 1] && segments[1..][i] == segments[i + 1];
        }
      }
    }
  }

  /** Every rule's resource is non-empty (the `unwrap` of `add_permission_rule`). */
  predicate WellFormed(rules: seq<Rules.PermissionRule>)
  {
    forall i :: 0 <= i < |rules| ==> |rules[i].resource| > 0
  }

  /** The roles the rules mention. */
  function RolesOf(rules: seq<Rules.PermissionRule>): set<Rules.RoleName>
  {
    set i | 0 <= i < |rules| :: rules[i].roleName
  }

  /** The chains of the rules for one role, in rule order. */
  function ChainsFor(rules: seq<Rules.PermissionRule>, role: Rules.RoleName): (chains: seq<Node>)
    requires WellFormed(rules)
    ensures forall c :: c in chains <==>
              exists j :: 0 <= j < |rules| && rules[j].roleName == role &&
                          c == NewChain(rules[j].permission, rules[j].resource)
    decreases |rules|
  {
    if rules == [] then []
    else
      var init, last := rules[..|rules| - 1], rules[|rules| - 1];
      assert forall j :: 0 <= j < |init| ==> init[j] == rules[j];
      ChainsFor(init, role) +
      (if last.roleName == role then [NewChain(last.permission, last.resource)] else [])
  }

  /** A role that no rule mentions has no chains. */
  lemma {:induction false} NoRulesNoChains(rules: seq<Rules.PermissionRule>, role: Rules.RoleName)
    requires WellFormed(rules) && role !in RolesOf(rules)
    ensures ChainsFor(rules, role) == []
    decreases |rules|
  {
    if rules != [] {
      var init := rules[..|rules| - 1];
      assert forall j :: 0 <= j < |init| ==> init[j] == rules[j];
      assert rules[|rules| - 1].roleName in RolesOf(rules);
      assert RolesOf(init) <= RolesOf(rules);
      NoRulesNoChains(init, role);
    }
  }

  /** The tree `from_rules` builds, stated as a value. */
  function TreeOf(rules: seq<Rules.PermissionRule>): PermissionTree
    requires WellFormed(rules)
  {
    PermissionTree(map role | role in RolesOf(rules) :: RootNode(Deny, ChainsFor(rules, role)))
  }

  /**
   * One more rule creates its role's root (with `Deny`) if missing and
   * appends exactly one chain to it; every other root is unchanged.
   */
  lemma TreeOfAppend(rules: seq<Rules.PermissionRule>, rule: Rules.PermissionRule)
    requires WellFormed(rules) && |rule.resource| > 0
    ensures WellFormed(rules + [rule])
    ensures var roots := TreeOf(rules).rootNodes;
      var root := if rule.roleName in roots then roots[rule.roleName] else RootNode(Deny, []);
      TreeOf(rules + [rule]).rootNodes == roots[rule.roleName := AddPermissionRule(root, rule.permission, rule.resource)]
  {
    var all := rules + [rule];
    assert WellFormed(all) by {
      forall i | 0 <= i < |all| ensures |all[i].resource| > 0 {
        if i < |rules| { assert all[i] == rules[i]; }
      }
    }
    assert all[..|all| - 1] == rules;
    forall x ensures x in RolesOf(all) <==> x in RolesOf(rules) || x == rule.roleName {
      if x in RolesOf(all) {
        var i :| 0 <= i < |all| && all[i].roleName == x;
        if i < |rules| { assert rules[i].roleName == x; }
      }
      if x in RolesOf(rules) {
        var i :| 0 <= i < |rules| && rules[i].roleName == x;
        assert all[i].roleName == x;
      }
      if x == rule.roleName {
        assert all[|rules|].roleName == x;
      }
    }
    var roots := TreeOf(rules).rootNodes;
    var root := if rule.roleName in roots then roots[rule.roleName] else RootNode(Deny, []);
    var updated := roots[rule.roleName := AddPermissionRule(root, rule.permission, rule.resource)];
    var built := TreeOf(all).rootNodes;
    assert built.Keys == updated.Keys;
    forall x | x in built ensures built[x] == updated[x] {
      assert ChainsFor(all, x) ==
        ChainsFor(rules, x) + (if rule.roleName == x then [NewChain(rule.permission, rule.resource)] else []);
      if x != rule.roleName {
        assert x in RolesOf(rules);
      } else if x !in RolesOf(rules) {
        NoRulesNoChains(rules, x);
      }
    }
  }

  /** `PermissionTree::from_rules`. */
  method FromRules(rules: seq<Rules.PermissionRule>) returns (tree: PermissionTree)
    requires WellFormed(rules)
    ensures tree == TreeOf(rules)
  {
    var roots: map<Rules.RoleName, RootNode> := map[];
    var i := 0;
    while i < |rules|
      invariant 0 <= i <= |rules|
      invariant WellFormed(rules[..i])
      invariant roots == TreeOf(rules[..i]).rootNodes
    {
      var rule := rules[i];
      TreeOfAppend(rules[..i], rule);
      assert rules[..i + 1] == rules[..i] + [rule];
      if rule.roleName !in roots {
        roots := roots[rule.roleName := RootNode(Deny, [])];
      }
      roots := roots[rule.roleName := AddPermissionRule(roots[rule.roleName], rule.permission, rule.resource)];
      i := i + 1;
    }
    assert rules[..i] == rules;
    tree := PermissionTree(roots);
  }

  /**
   * The roots of a built tree: one per mentioned role, each storing `Deny`,
   * each holding the chains of its role's rules and nothing else.
   */
  lemma TreeOfRoots(rules: seq<Rules.PermissionRule>, role: Rules.RoleName)
    requires WellFormed(rules)
    ensures role in TreeOf(rules).rootNodes <==> exists j :: 0 <= j < |rules| && rules[j].roleName == role
    ensures role in TreeOf(rules).rootNodes ==>
              TreeOf(rules).rootNodes[role].permission == Deny &&
              TreeOf(rules).rootNodes[role].subNodes != []
  {
    if role in TreeOf(rules).rootNodes {
      var j :| 0 <= j < |rules| && rules[j].roleName == role;
      assert NewChain(rules[j].permission, rules[j].resource) in ChainsFor(rules, role);
    }
  }

  /**
   * A query on a built tree is true exactly when some rule of some role in
   * the chain grants the path.
   */
  lemma TreeQueryIffSomeRuleGrants(rules: seq<Rules.PermissionRule>, names: seq<Rules.RoleName>, segments: seq<string>, env: Environment)
    requires WellFormed(rules) && |segments| > 0
    ensures HasPermissionFor(TreeOf(rules), names, segments, env) <==>
              exists i, j :: 0 <= i < |names| && 0 <= j < |rules| && rules[j].roleName == names[i] &&
                             RuleGrants(rules[j].permission, rules[j].resource, segments, env)
  {
    var tree := TreeOf(rules);
    if HasPermissionFor(tree, names, segments, env) {
      var i :| 0 <= i < |names| && names[i] in tree.rootNodes &&
               RootHasPermissionFor(tree.rootNodes[names[i]], segments, env);
      var chains := ChainsFor(rules, names[i]);
      var k :| 0 <= k < |chains| && NodeHasPermissionFor(chains[k], segments, env);
      assert chains[k] in chains;
      var j :| 0 <= j < |rules| && rules[j].roleName == names[i] &&
               chains[k] == NewChain(rules[j].permission, rules[j].resource);
      ChainGrantsIffRuleGrants(rules[j].permission, rules[j].resource, segments, env);
    }
    if exists i, j :: 0 <= i < |names| && 0 <= j < |rules| && rules[j].roleName == names[i] &&
                      RuleGrants(rules[j].permission, rules[j].resource, segments, env) {
      var i, j :| 0 <= i < |names| && 0 <= j < |rules| && rules[j].roleName == names[i] &&
                  RuleGrants(rules[j].permission, rules[j].resource, segments, env);
      var c := NewChain(rules[j].permission, rules[j].resource);
      ChainGrantsIffRuleGrants(rules[j].permission, rules[j].resource, segments, env);
      var chains := ChainsFor(rules, names[i]);
      assert c in chains;
      var k :| 0 <= k < |chains| && chains[k] == c;
      assert names[i] in RolesOf(rules);
      assert RootHasPermissionFor(tree.rootNodes[names[i]], segments, env);
    }
  }

  /** The unit test of src/permissions.rs: one `allow X /a` rule grants `["a"]` to `[X]`. */
  lemma SingleAllowRuleGrants()
    ensures HasPermissionFor(TreeOf([Rules.PermissionRule(Rules.Allow, "X", [Rules.Literal("a")])]),
                             ["X"], ["a"], Empty())
  {
    var rules := [Rules.PermissionRule(Rules.Allow, "X", [Rules.Literal("a")])];
    assert RuleGrants(rules[0].permission, rules[0].resource, ["a"], Empty());
    assert rules[0].roleName == ["X"][0];
    TreeQueryIffSomeRuleGrants(rules, ["X"], ["a"], Empty());
  }

  /** A `deny` rule ending in a literal grants its own path. */
  lemma DenyLiteralRuleGrants()
    ensures HasPermissionFor(TreeOf([Rules.PermissionRule(Rules.Deny, "X", [Rules.Literal("a")])]),
                             ["X"], ["a"], Empty())
  {
    var rules := [Rules.PermissionRule(Rules.Deny, "X", [Rules.Literal("a")])];
    assert RuleGrants(rules[0].permission, rules[0].resource, ["a"], Empty());
    assert rules[0].roleName == ["X"][0];
    TreeQueryIffSomeRuleGrants(rules, ["X"], ["a"], Empty());
  }

  /** A path that stops at a literal prefix of a longer rule is granted. */
  lemma LiteralPrefixGrants()
    ensures HasPermissionFor(TreeOf([Rules.PermissionRule(Rules.Allow, "Editor", [Rules.Literal("docs"), Rules.Literal("public")])]),
                             ["Editor"], ["docs"], Empty())
  {
    var rules := [Rules.PermissionRule(Rules.Allow, "Editor", [Rules.Literal("docs"), Rules.Literal("public")])];
    assert RuleGrants(rules[0].permission, rules[0].resource, ["docs"], Empty());
    assert rules[0].roleName == ["Editor"][0];
    TreeQueryIffSomeRuleGrants(rules, ["Editor"], ["docs"], Empty());
  }

  /** A single-segment wildcard rule does not grant a two-segment path. */
  lemma UniversalRuleIsOneSegment(a: string, b: string, env: Environment)
    ensures !HasPermissionFor(TreeOf([Rules.PermissionRule(Rules.Allow, "Guest", [Rules.Universal])]),
                              ["Guest"], [a, b], env)
  {
    TreeQueryIffSomeRuleGrants([Rules.PermissionRule(Rules.Allow, "Guest", [Rules.Universal])], ["Guest"], [a, b], env);
  }

  /**
   * On an empty path, a root whose only sub-node is an unbound Variable is
   * answered false without reading a segment.
   */
  lemma UnboundVariableReadsNoSegment()
    ensures var tree := PermissionTree(map["X" := RootNode(Deny, [Variable("id", Allow, [])])]);
      QueryDefined(tree, ["X"], [], Empty()) && !HasPermissionFor(tree, ["X"], [], Empty())
  {
  }
}
