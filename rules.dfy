/**
 * The structured rules produced by the rule front-end (src/parse.rs) and
 * consumed by the permission tree.
 */
module Rules {
  type RoleName = string

  /** The effect written in a permission rule: `allow` or `deny`. */
  datatype Permission = Allow | Deny

  /** How one resource segment of a rule is matched. */
  datatype PermissionKind =
    | Literal(name: string)
    | Variable(name: string)
    | Set(name: string)
    | Universal

  type Resource = seq<PermissionKind>

  datatype PermissionRule = PermissionRule(permission: Permission, roleName: RoleName, resource: Resource)
}
