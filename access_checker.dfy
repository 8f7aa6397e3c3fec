/**
 * The access checker of src/access_checker.rs: a role graph, a permission
 * tree and a replaceable environment, answering whether a role may access a
 * resource path.
 */
module Access {
  import opened Environments
  import Roles
  import Permissions

  class AccessChecker {
    var roleGraph: Roles.RoleGraph
    var permissionTree: Permissions.PermissionTree
    var environment: Environment

    /** `AccessChecker::new`: the given graph and tree, and an empty environment. */
    constructor (roleGraph: Roles.RoleGraph, permissionTree: Permissions.PermissionTree)
      ensures this.roleGraph == roleGraph && this.permissionTree == permissionTree
      ensures environment == Empty()
    {
      this.roleGraph := roleGraph;
      this.permissionTree := permissionTree;
      environment := Empty();
    }

    /**
     * `has_permission_for`: the tree query over the role's ancestor chain,
     * under the held environment. The checker is left unchanged.
     */
    method HasPermissionFor(name: Roles.RoleName, resource: seq<string>) returns (r: bool)
      requires Roles.ChainIsFinite(roleGraph.roles, name)
      requires forall names :: Roles.IsAncestorChain(roleGraph.roles, name, names) ==>
                 Permissions.QueryDefined(permissionTree, names, resource, environment)
      ensures exists names :: Roles.IsAncestorChain(roleGraph.roles, name, names) &&
                              r == Permissions.HasPermissionFor(permissionTree, names, resource, environment)
    {
      var names := Roles.GetGroupNames(roleGraph, name);
      r := Permissions.HasPermissionFor(permissionTree, names, resource, environment);
    }

    /** `set_environment`: the environment is replaced wholesale; graph and tree are kept. */
    method SetEnvironment(environment: Environment)
      modifies this`environment
      ensures this.environment == environment
      ensures roleGraph == old(roleGraph) && permissionTree == old(permissionTree)
    {
      this.environment := environment;
    }
  }

  /**
   * Inheritance: a child role's query is its own root's answer OR its
   * parent's whole query.
   */
  lemma ChildQueryInheritsParent(graph: Roles.RoleGraph, tree: Permissions.PermissionTree, child: Roles.RoleName,
                                 resource: seq<string>, env: Environment, childChain: seq<Roles.RoleName>, parentChain: seq<Roles.RoleName>)
    requires |resource| > 0 && child in graph.roles
    requires Roles.IsAncestorChain(graph.roles, child, childChain)
    requires Roles.IsAncestorChain(graph.roles, graph.roles[child], parentChain)
    ensures Permissions.HasPermissionFor(tree, childChain, resource, env) <==>
              (child in tree.rootNodes && Permissions.RootHasPermissionFor(tree.rootNodes[child], resource, env)) ||
              Permissions.HasPermissionFor(tree, parentChain, resource, env)
  {
    Roles.AncestorChainStep(graph.roles, child, childChain);
    Roles.AncestorChainUnique(graph.roles, graph.roles[child], childChain[1..], parentChain);
    assert childChain == [child] + parentChain;
  }

  /** Monotone inheritance: a root anywhere up the chain that grants the path grants it to the role. */
  lemma AncestorGrantSuffices(graph: Roles.RoleGraph, tree: Permissions.PermissionTree, name: Roles.RoleName,
                              resource: seq<string>, env: Environment, names: seq<Roles.RoleName>, i: nat)
    requires |resource| > 0 && Roles.IsAncestorChain(graph.roles, name, names) && i < |names|
    requires names[i] in tree.rootNodes && Permissions.RootHasPermissionFor(tree.rootNodes[names[i]], resource, env)
    ensures Permissions.HasPermissionFor(tree, names, resource, env)
  {
  }
}
