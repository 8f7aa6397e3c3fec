# talos-rust access control, modelled in Dafny

This project models talos-rust, a small role-based access-control library.
The library reads a policy made of lines such as `admin > user` (role
inheritance) and `allow user /docs/[id]` (permission rules). From these it
builds two structures:

- a **role graph**, a map from each child role to its single parent;
- a **permission tree**, with one root per role and under each root one
  linear chain of pattern nodes per rule. The nodes are Literal, Variable
  `[x]`, Set `{x}` and Universal `*`.

An **access checker** answers "may role R access path p?". It does this by
walking R's ancestor chain and asking whether any of those roles has a root
that grants p, under an environment. The environment holds variable
bindings and named sets, and it can be replaced.

The modules follow the source files:

| module | file | form |
|---|---|---|
| `Rules` | `src/parse.rs` (types) | datatypes |
| `Permissions` | `src/permissions.rs` | `Node` datatype and recursive evaluation; `FromRules` is a method with a loop over a `map` of roots |
| `Roles` | `src/roles.rs` | `FromRules` and `GetGroupNames` are methods with loops |
| `Environments`, `Access` | `src/access_checker.rs` | the `Environment` record, and the `AccessChecker` class with a replaceable `environment` field |
| `Parse` | `src/parse.rs` | pure `ToRule`/`ToRules`, the loop method `SplitRules`, and the `Parse` pipeline |
| `Wrappers` | — | `Result` |

The model follows the code as written. Two behaviours of the code are kept
as written even though a reader of the rule syntax may not expect them:

- A Literal node matched on the last remaining segment grants access
  whatever permission it stores, so a `deny` rule ending in a literal grants
  its path (`DenyLiteralRuleGrants`).
- A path that stops at a literal prefix of a longer rule is granted
  (`LiteralPrefixGrants`).

`RuleGrants` states exactly what one rule grants.

Three results state the whole meaning of a query:

- `NodeGrantsIffGrantingPath`: a node grants a path exactly when a chain of
  matching nodes leads from it to a granting node.
- `TreeQueryIffSomeRuleGrants`: a query on a built tree is true exactly when
  some rule of some role in the chain grants the path.
- `ChildQueryInheritsParent`: inheritance, stated as a lemma.

## Model

| member | source | states |
|---|---|---|
| `Permissions.ToBool` | src/permissions.rs:185-191 | only `Allow` is true; `Deny` and `None` are false |
| `Permissions.FromParsed` | src/permissions.rs:56-61 | a rule's effect becomes `Allow` or `Deny`, never `None`, and `Allow` exactly for `allow` |
| `Permissions.NodeHasPermissionFor` | src/permissions.rs:111-173 | a node grants only when the path is non-empty and its first segment matches the node's pattern; on an empty path only an unbound Variable or an unknown Set may be asked (they return false without reading a segment). `NodeEvalStep` and `NodeGrantsIffGrantingPath` give its full meaning |
| `Permissions.SubNodesHavePermissionFor` | src/permissions.rs:43-48 | true iff some sub-node grants the path; the path may be empty only when every sub-node is an unbound Variable or an unknown Set |
| `Permissions.RootHasPermissionFor` | src/permissions.rs:99-101 | a root grants iff one of its sub-nodes grants the full path; a root without sub-nodes grants nothing |
| `Permissions.HasPermissionFor` | src/permissions.rs:28-38 | true iff some name in the chain has a root that grants the path; names without a root contribute false. The precondition `QueryDefined` is exactly the non-panicking case: the path is non-empty, or every sub-node of every root in the chain is an unbound Variable or an unknown Set |
| `Permissions.UnboundVariableReadsNoSegment` | src/permissions.rs:129-139 | on an empty path, a root whose only sub-node is an unbound Variable is a legal query that answers false |
| `Permissions.NodeEvalStep` | src/permissions.rs:112-173 | one evaluation step for all four kinds: the first segment matches the node's pattern, and then either the node grants at the end or some sub-node grants the rest |
| `Permissions.GrantingPathOf` | src/permissions.rs:112-173 | a node that grants a path heads a chain of nodes. Each node is a sub-node of the previous one, each matches its segment, and the last one grants |
| `Permissions.GrantingPathGrants` | src/permissions.rs:112-173 | the head of such a granting chain grants the path |
| `Permissions.NodeGrantsIffGrantingPath` | src/permissions.rs:112-173 | a node grants a path iff a granting chain of nodes starts at it (an existential OR over all routes through the trie) |
| `Permissions.LiteralLastSegmentGrants` | src/permissions.rs:113-114 | a Literal matched on the last segment grants whatever permission it stores |
| `Permissions.LiteralMismatchDenies` | src/permissions.rs:113-118 | a Literal whose name differs from the first segment gives false |
| `Permissions.VariableNeedsBinding` | src/permissions.rs:130-138 | a Variable grants only if its variable is bound to the first segment; an unbound variable always gives false |
| `Permissions.SetNeedsMembership` | src/permissions.rs:150-158 | a Set grants only if its set exists and contains the first segment; an unknown set always gives false |
| `Permissions.UniversalMatchesAnySegment` | src/permissions.rs:169-173 | a Universal matches any segment. On the last segment it gives its permission as a bool; otherwise it ORs its sub-nodes on the rest of the path |
| `Permissions.TerminalNonLiteralNeedsAllow` | src/permissions.rs:130-173 | on the last segment, a matched Variable, Set or Universal grants iff it stores `Allow` |
| `Permissions.EmptyEnvironmentFailsClosed` | src/permissions.rs:130-158 | under the empty environment no Variable or Set node grants anything |
| `Permissions.RootPermissionIgnored` | src/permissions.rs:94-101 | the permission stored in a root never affects its answer |
| `Permissions.NewNode` | src/permissions.rs:64-84 | the new node has the kind of the pattern segment and the given permission and sub-nodes |
| `Permissions.NewChain` | src/permissions.rs:55-88 | the chain of a pattern starts with a node of the pattern's first kind and has one node per segment; `ChainShape` and `ChainGrantsIffRuleGrants` give its full shape and meaning |
| `Permissions.AddPermissionRule` | src/permissions.rs:51-91 | the root keeps its permission and its sub-nodes, and gains the rule's chain as a new last sub-node |
| `Permissions.AddRuleOrsChain` | src/permissions.rs:51-91 | after a rule is added, a root grants iff it granted before or the rule's chain grants |
| `Permissions.SpineOfChain` | src/permissions.rs:51-91 | a rule's chain has one node per pattern segment, and node i is the chain of the pattern suffix from i |
| `Permissions.ChainShape` | src/permissions.rs:51-91 | the chain's nodes have the pattern's kinds in order. Each node but the last has one sub-node and `None`; the last has no sub-node and the rule's effect |
| `Permissions.ChainGrantsIffRuleGrants` | src/permissions.rs:106-176 | a rule's chain grants a path iff every segment matches its pattern and the node reached by the last segment is a Literal, or is the final node of an `allow` rule |
| `Permissions.ChainsFor` | src/permissions.rs:14-23 | a role's chains are exactly the chains of the rules for that role |
| `Permissions.TreeOfAppend` | src/permissions.rs:14-23 | one more rule creates its role's root with `Deny` if it is missing and appends exactly one chain to it; every other root is unchanged |
| `Permissions.FromRules` | src/permissions.rs:12-27 | the loop builds exactly `TreeOf(rules)`; resources must be non-empty (the `unwrap`) |
| `Permissions.TreeOfRoots` | src/permissions.rs:15-20 | a built tree has a root exactly for each role named in a rule; each root stores `Deny` and has at least one sub-node |
| `Permissions.TreeQueryIffSomeRuleGrants` | src/permissions.rs:28-38 | a query on a built tree is true iff some rule whose role is in the chain grants the path |
| `Permissions.SingleAllowRuleGrants` | src/permissions.rs:199-214 | the unit test: an `allow` rule for role X on the resource `[Literal("a")]` grants `["a"]` to `[X]` under the empty environment |
| `Permissions.DenyLiteralRuleGrants` | src/permissions.rs:113-114 | a `deny` rule on the resource `[Literal("a")]` grants `["a"]` |
| `Permissions.LiteralPrefixGrants` | src/permissions.rs:113-116 | an `allow` rule for Editor on the resource `[Literal("docs"), Literal("public")]` grants the shorter path `["docs"]` |
| `Permissions.UniversalRuleIsOneSegment` | src/permissions.rs:168-173 | an `allow` rule for Guest on the resource `[Universal]` grants no two-segment path, under any environment |
| `Roles.FromRules` | src/roles.rs:14-25 | succeeds iff no child appears twice. On success the map's domain is exactly the children, and each rule's child maps to its parent. On failure the error names the first repeated child |
| `Roles.RepeatedRuleRejected` | src/roles.rs:17-18 | repeating a rule with the same parent is still rejected |
| `Roles.GetGroupNames` | src/roles.rs:26-37 | the result starts with the queried role, links each entry to the next through the parent map, and ends with a role without a parent; it requires that the walk up ends |
| `Roles.AncestorChainUnique` | src/roles.rs:26-37 | a role has at most one such chain |
| `Roles.AncestorChainStep` | src/roles.rs:31-34 | a role with a parent has the chain: itself, then its parent's chain |
| `Roles.UnregisteredRoleChain` | src/roles.rs:27-31 | a role without a parent yields exactly `[role]` |
| `Roles.AncestorChainIsFinite` | src/roles.rs:31-34 | a chain exists only when the walk up ends, so `GetGroupNames`' precondition is exact |
| `Roles.SelfParentNeverEnds` | src/roles.rs:31-34 | a role that is its own parent has a walk that never ends (the loop has no cycle check) |
| `Environments.Empty` | src/access_checker.rs:14-17 | the starting environment binds no variable and has no set |
| `Access.AccessChecker.constructor` | src/access_checker.rs:13-18 | keeps the given graph and tree and starts with the empty environment |
| `Access.AccessChecker.HasPermissionFor` | src/access_checker.rs:19-22 | the answer is the tree query over the role's ancestor chain under the held environment, and the checker is unchanged; it may be asked whenever that query does not panic |
| `Access.AccessChecker.SetEnvironment` | src/access_checker.rs:23 | replaces the environment wholesale and leaves the graph and tree unchanged |
| `Access.ChildQueryInheritsParent` | src/access_checker.rs:19-22 | a child's query is its own root's answer OR its parent's whole query |
| `Access.AncestorGrantSuffices` | src/permissions.rs:32-37 | if any root up the ancestor chain grants the path, the role's query is true |
| `Parse.Split` | src/parse.rs:29 | the pieces are non-empty in number and contain no '/', and joined with '/' they give back the input |
| `Parse.SplitJoin` | src/parse.rs:29 | splitting '/'-free pieces joined by '/' gives the pieces back |
| `Parse.ClassifySegment` | src/parse.rs:30-35 | a word is a Variable iff it is wrapped in `[` `]`, a Set iff wrapped in `{` `}` and not in brackets, Universal iff it is `*`, and otherwise the Literal of the word itself; `ClassifyThenText` and `TextThenClassify` make it a bijection with the writable patterns |
| `Parse.ClassifyThenText` | src/parse.rs:30-35 | each word is the text of the pattern it is classified as (brackets and braces are stripped, nothing else) |
| `Parse.TextThenClassify` | src/parse.rs:30-35 | the text of any writable pattern is classified back to the same pattern |
| `Parse.EmptyBracketsAreVariable` | src/parse.rs:31 | `[]` is the variable with the empty name |
| `Parse.ParseResource` | src/parse.rs:29-35 | one pattern per '/'-piece, in order, and at least one |
| `Parse.ParseThenText` | src/parse.rs:29-35 | every resource string is the text of the pattern it parses to |
| `Parse.TextThenParse` | src/parse.rs:29-35 | a pattern of writable segments parses back from its text |
| `Parse.LeadingSlashGivesEmptyLiteral` | src/parse.rs:29-35 | a resource that starts with '/' starts with `Literal("")` |
| `Parse.ToRule` | src/parse.rs:18-41 | a line is accepted iff it has three tokens and either `>` in the middle or `allow`/`deny` first. Blank and other lines fail. A permission rule has a non-empty resource |
| `Parse.ToRuleThenTokens` | src/parse.rs:18-41 | every accepted line is the tokens of the rule it yields (parent before child, keyword for effect) |
| `Parse.TokensThenToRule` | src/parse.rs:19-22 | a writable rule parses back from its tokens; a `>` in the middle is taken as a role rule first |
| `Parse.ToRules` | src/parse.rs:7-10 | the rules of all lines in order, or the error of the first bad line |
| `Parse.RoleRulesOf` | src/parse.rs:43-56 | the role rules are exactly the `Role` entries, with fields unchanged |
| `Parse.PermissionRulesOf` | src/parse.rs:43-56 | the permission rules are exactly the `Permission` entries, with fields unchanged |
| `Parse.SplitRulesPartition` | src/parse.rs:43-56 | the two outputs' lengths add up to the input's |
| `Parse.SplitRulesKeepsOrder` | src/parse.rs:46-53 | splitting a concatenation splits each part, so relative order is kept |
| `Parse.SplitRules` | src/parse.rs:43-56 | the loop computes both sides of the partition |
| `Parse.ParsedPermissionRulesWellFormed` | src/permissions.rs:63 | parsed permission rules always have a non-empty resource, so the `unwrap` never fails |
| `Parse.Parse` | src/parse.rs:6-16 | fails only where the source panics. Otherwise it returns a fresh checker whose graph maps each role rule's child to its parent, whose tree is `TreeOf` of the permission rules, and whose environment is empty |

## Left out

- Text splitting into lines and whitespace tokens (`lines`, `split_whitespace`) is not modelled. `ToRule` and `Parse` take tokenised lines.
- Panics are not modelled as aborts. `to_rule`'s panics, the duplicate-child panic of `RoleGraph::from_rules` and the `unwrap` in `add_permission_rule` become `Err` results or preconditions. The source's `parse` never returns `Err(())`; the model's `Err` stands for the panic.
- The panic of a node that indexes an empty path is not modelled as an abort. `Permissions.HasPermissionFor` and `Access.AccessChecker.HasPermissionFor` require `QueryDefined`, which holds exactly when no visited node reads a segment of an empty path.
- `Roles.GetGroupNames` requires that the walk up from the role ends. The source loops forever on a cycle above the role, and the model does not run into that case.
- Trait objects (`Box<Node>`) and dynamic dispatch are replaced by one `Node` datatype with a `match`. The in-place `push` onto a node's sub-node vector is modelled as building a new root value, which is stored back into the map of roots.
- `HashMap` hashing and iteration order are not modelled; maps are Dafny `map`s. Query order comes from the name sequence.
- The unused `Role` struct of `src/roles.rs` is not modelled. `src/lib.rs` holds no logic.
