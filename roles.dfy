/**
 * The role graph of src/roles.rs: a map from each child role to its single
 * parent, and the walk up that map that lists a role's ancestors.
 */
module Roles {
  import opened Wrappers

  type RoleName = string

  /** A role rule `parent > child`. */
  datatype Rule = Rule(parent: RoleName, child: RoleName)

  datatype RoleGraph = RoleGraph(roles: map<RoleName, RoleName>)

  /** The panic of `from_rules`: a child that already has a parent. */
  datatype BuildError = DuplicateChild(child: RoleName)

  /** The children the rules name. */
  function Children(rules: seq<Rule>): set<RoleName>
  {
    set i | 0 <= i < |rules| :: rules[i].child
  }

  /** No child appears in two rules. */
  predicate DistinctChildren(rules: seq<Rule>)
  {
    forall i, j :: 0 <= i < j < |rules| ==> rules[i].child != rules[j].child
  }

  /**
   * `RoleGraph::from_rules`: each rule maps its child to its parent; the first
   * rule whose child is already mapped, even to the same parent, is an error.
   */
  method FromRules(rules: seq<Rule>) returns (r: Result<RoleGraph, BuildError>)
    ensures r.Ok? <==> DistinctChildren(rules)
    ensures r.Ok? ==> r.value.roles.Keys == Children(rules) &&
                      forall i :: 0 <= i < |rules| ==> r.value.roles[rules[i].child] == rules[i].parent
    ensures r.Err? ==> exists j :: 0 <= j < |rules| && DistinctChildren(rules[..j]) &&
                                   rules[j].child in Children(rules[..j]) &&
                                   r.error == DuplicateChild(rules[j].child)
  {
    var roles: map<RoleName, RoleName> := map[];
    var i := 0;
    while i < |rules|
      invariant 0 <= i <= |rules|
      invariant DistinctChildren(rules[..i])
      invariant roles.Keys == Children(rules[..i])
      invariant forall k :: 0 <= k < i ==> roles[rules[k].child] == rules[k].parent
    {
      var rule := rules[i];
      if rule.child in roles {
        return Err(DuplicateChild(rule.child));
      }
      assert rules[..i + 1] == rules[..i] + [rule];
      roles := roles[rule.child := rule.parent];
      i := i + 1;
    }
    assert rules[..i] == rules;
    return Ok(RoleGraph(roles));
  }

  /** A second rule for the same child fails even when it repeats the parent. */
  lemma RepeatedRuleRejected(parent: RoleName, child: RoleName)
    ensures !DistinctChildren([Rule(parent, child), Rule(parent, child)])
  {
    assert [Rule(parent, child), Rule(parent, child)][0].child == [Rule(parent, child), Rule(parent, child)][1].child;
  }

  // ---------------------------------------------------------------------
  // Ancestor chains
  // ---------------------------------------------------------------------

  /** One step up: the parent, or the role itself when it has none. */
  function Up(roles: map<RoleName, RoleName>, name: RoleName): RoleName
  {
    if name in roles then roles[name] else name
  }

  /** The role reached after k steps up. */
  function Walk(roles: map<RoleName, RoleName>, name: RoleName, k: nat): RoleName
  {
    if k == 0 then name else Up(roles, Walk(roles, name, k - 1))
  }

  /** The walk up from `name` reaches a role without a parent: no cycle lies above `name`. */
  ghost predicate ChainIsFinite(roles: map<RoleName, RoleName>, name: RoleName)
  {
    exists k: nat :: Walk(roles, name, k) !in roles
  }

  /**
   * `names` starts with `name`, links each entry to the next through the
   * parent map, and ends with a role that has no parent.
   */
  predicate IsAncestorChain(roles: map<RoleName, RoleName>, name: RoleName, names: seq<RoleName>)
  {
    |names| > 0 && names[0] == name &&
    (forall i :: 0 <= i < |names| - 1 ==> names[i] in roles && roles[names[i]] == names[i + 1]) &&
    names[|names| - 1] !in roles
  }

  /** `RoleGraph::get_group_names`: the ancestor chain of a role, most specific first. */
  method GetGroupNames(graph: RoleGraph, firstName: RoleName) returns (names: seq<RoleName>)
    requires ChainIsFinite(graph.roles, firstName)
    ensures IsAncestorChain(graph.roles, firstName, names)
  {
    ghost var bound: nat :| Walk(graph.roles, firstName, bound) !in graph.roles;
    names := [firstName];
    var toResolve := firstName;
    while toResolve in graph.roles
      invariant 0 < |names| <= bound + 1
      invariant names[0] == firstName && toResolve == names[|names| - 1]
      invariant toResolve == Walk(graph.roles, firstName, |names| - 1)
      invariant forall i :: 0 <= i < |names| - 1 ==> names[i] in graph.roles && graph.roles[names[i]] == names[i + 1]
      decreases bound + 1 - |names|
    {
      var name := graph.roles[toResolve];
      names := names + [name];
      toResolve := name;
    }
  }

  /** A role has at most one ancestor chain. */
  lemma {:induction false} AncestorChainUnique(roles: map<RoleName, RoleName>, name: RoleName, a: seq<RoleName>, b: seq<RoleName>)
    requires IsAncestorChain(roles, name, a) && IsAncestorChain(roles, name, b)
    ensures a == b
    decreases |a|
  {
    if |a| > 1 {
      assert |b| > 1;
      AncestorChainUnique(roles, roles[name], a[1..], b[1..]);
      assert a == [name] + a[1..] && b == [name] + b[1..];
    }
  }

  /** The chain of a role with a parent is the role followed by its parent's chain. */
  lemma AncestorChainStep(roles: map<RoleName, RoleName>, child: RoleName, names: seq<RoleName>)
    requires IsAncestorChain(roles, child, names) && child in roles
    ensures |names| > 1 && IsAncestorChain(roles, roles[child], names[1..])
  {
  }

  /** A role with no registered parent is its own whole chain. */
  lemma UnregisteredRoleChain(roles: map<RoleName, RoleName>, name: RoleName, names: seq<RoleName>)
    requires name !in roles && IsAncestorChain(roles, name, names)
    ensures names == [name]
  {
  }

  /** A role has an ancestor chain only when the walk up from it ends. */
  lemma {:induction false} AncestorChainIsFinite(roles: map<RoleName, RoleName>, name: RoleName, names: seq<RoleName>)
    requires IsAncestorChain(roles, name, names)
    ensures ChainIsFinite(roles, name)
  {
    forall k | 0 <= k < |names| ensures Walk(roles, name, k) == names[k] {
      WalkFollowsChain(roles, name, names, k);
    }
    assert Walk(roles, name, |names| - 1) !in roles;
  }

  /** The walk up visits the entries of an ancestor chain in order. */
  lemma {:induction false} WalkFollowsChain(roles: map<RoleName, RoleName>, name: RoleName, names: seq<RoleName>, k: nat)
    requires IsAncestorChain(roles, name, names) && k < |names|
    ensures Walk(roles, name, k) == names[k]
  {
    if k > 0 {
      WalkFollowsChain(roles, name, names, k - 1);
    }
  }

  /** A role that is its own parent has no ancestor chain: the walk never ends. */
  lemma {:induction false} SelfParentNeverEnds(roles: map<RoleName, RoleName>, name: RoleName)
    requires name in roles && roles[name] == name
    ensures !ChainIsFinite(roles, name)
  {
    forall k: nat ensures Walk(roles, name, k) == name {
      WalkAtSelfParent(roles, name, k);
    }
  }

  /** The walk up from a role that is its own parent never moves. */
  lemma {:induction false} WalkAtSelfParent(roles: map<RoleName, RoleName>, name: RoleName, k: nat)
    requires name in roles && roles[name] == name
    ensures Walk(roles, name, k) == name
  {
    if k > 0 {
      WalkAtSelfParent(roles, name, k - 1);
    }
  }
}
