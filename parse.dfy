/**
 * The rule front-end of src/parse.rs: tokenised policy lines become role
 * rules and permission rules, which build an access checker. The panics of
 * the source are the `Err` results here.
 */
module Parse {
  import opened Wrappers
  import Rules
  import Roles
  import Permissions
  import Environments
  import Access

  /** A parsed line: `parent > child`, or `allow|deny role resource`. */
  datatype Rule =
    | Role(parent: Rules.RoleName, child: Rules.RoleName)
    | Permission(permission: Rules.Permission, roleName: Rules.RoleName, resource: Rules.Resource)

  /** Why `to_rule` panics on a line. */
  datatype LineError = WrongTokenCount(count: nat) | UnknownPermission(keyword: string)

  /** Why `parse` panics: a bad line (the first one), or a child with two parent rules. */
  datatype ParseError = BadLine(index: nat, error: LineError) | DuplicateChild(child: Rules.RoleName)

  // ---------------------------------------------------------------------
  // Splitting a resource on '/'
  // ---------------------------------------------------------------------

  /** The pieces glued back together with '/' between them. */
  function Join(pieces: seq<string>): string
    requires |pieces| > 0
  {
    if |pieces| == 1 then pieces[0] else pieces[0] + "/" + Join(pieces[1..])
  }

  /**
   * `split('/')`: the maximal '/'-free pieces between separators, so that a
   * leading, trailing or doubled '/' gives an empty piece, and "" gives [""].
   */
  function Split(s: string): (pieces: seq<string>)
    ensures |pieces| > 0
    ensures forall i :: 0 <= i < |pieces| ==> '/' !in pieces[i]
    ensures Join(pieces) == s
  {
    if s == [] then [""]
    else
      var rest := Split(s[1..]);
      if s[0] == '/' then
        [""] + rest
      else
        var pieces := [[s[0]] + rest[0]] + rest[1..];
        assert |rest| > 1 ==> pieces[1..] == rest[1..] && Join(rest) == rest[0] + "/" + Join(rest[1..]);
        assert s == [s[0]] + s[1..];
        pieces
  }

  /** Splitting a '/'-free prefix onto a string extends the first piece. */
  lemma {:induction false} SplitPrefix(p: string, t: string)
    requires '/' !in p
    ensures Split(p + t) == [p + Split(t)[0]] + Split(t)[1..]
    decreases |p|
  {
    var st := Split(t);
    if p == [] {
      assert p + t == t && p + st[0] == st[0];
      assert [st[0]] + st[1..] == st;
    } else {
      SplitPrefix(p[1..], t);
      assert (p + t)[0] == p[0] != '/';
      assert (p + t)[1..] == p[1..] + t;
      var rest := Split(p[1..] + t);
      assert rest[0] == p[1..] + st[0] && rest[1..] == st[1..];
      assert [p[0]] + (p[1..] + st[0]) == p + st[0];
    }
  }

  /** A leading '/' splits off an empty piece. */
  lemma SplitAfterSlash(t: string)
    ensures Split("/" + t) == [""] + Split(t)
  {
    assert ("/" + t)[1..] == t;
  }

  /** Splitting what `Join` glued gives back the '/'-free pieces. */
  lemma {:induction false} SplitJoin(pieces: seq<string>)
    requires |pieces| > 0 && forall i :: 0 <= i < |pieces| ==> '/' !in pieces[i]
    ensures Split(Join(pieces)) == pieces
  {
    var head := pieces[0];
    if |pieces| == 1 {
      SplitPrefix(head, "");
      assert head + "" == head;
    } else {
      var tail := pieces[1..];
      SplitJoin(tail);
      var rest := "/" + Join(tail);
      SplitAfterSlash(Join(tail));
      SplitPrefix(head, rest);
      assert Join(pieces) == head + rest;
      assert head + "" == head;
      assert pieces == [head] + tail;
    }
  }

  // ---------------------------------------------------------------------
  // Classifying resource segments
  // ---------------------------------------------------------------------

  /** At least two characters, the first `open` and the last `close`. */
  predicate Wrapped(word: string, open: char, close: char)
  {
    |word| >= 2 && word[0] == open && word[|word| - 1] == close
  }

  /** The segment classifier of `to_rule`: `[x]`, `{x}`, `*`, or a literal. */
  function ClassifySegment(word: string): (k: Rules.PermissionKind)
    ensures k.Variable? <==> Wrapped(word, '[', ']')
    ensures k.Set? <==> Wrapped(word, '{', '}') && !Wrapped(word, '[', ']')
    ensures k.Universal? <==> word == "*"
    ensures k.Literal? ==> k.name == word
  {
    if Wrapped(word, '[', ']') then Rules.Variable(word[1..|word| - 1])
    else if Wrapped(word, '{', '}') then Rules.Set(word[1..|word| - 1])
    else if word == "*" then Rules.Universal
    else Rules.Literal(word)
  }

  /** The text of a segment pattern. */
  function SegmentText(k: Rules.PermissionKind): string
  {
    match k
    case Literal(name) => name
    case Variable(name) => "[" + name + "]"
    case Set(name) => "{" + name + "}"
    case Universal => "*"
  }

  /** A pattern whose text reads back as itself and holds no '/'. */
  predicate Writable(k: Rules.PermissionKind)
  {
    match k
    case Literal(name) => '/' !in name && !Wrapped(name, '[', ']') && !Wrapped(name, '{', '}') && name != "*"
    case Variable(name) => '/' !in name
    case Set(name) => '/' !in name
    case Universal => true
  }

  /** Every word is the text of the pattern it is classified as. */
  lemma ClassifyThenText(word: string)
    ensures SegmentText(ClassifySegment(word)) == word
  {
    if Wrapped(word, '[', ']') || Wrapped(word, '{', '}') {
      assert word == [word[0]] + word[1..|word| - 1] + [word[|word| - 1]];
    }
  }

  /** A writable pattern is classified back from its text. */
  lemma TextThenClassify(k: Rules.PermissionKind)
    requires Writable(k)
    ensures ClassifySegment(SegmentText(k)) == k
  {
    match k
    case Variable(name) =>
      var w := "[" + name + "]";
      assert w[1..|w| - 1] == name;
    case Set(name) =>
      var w := "{" + name + "}";
      assert w[1..|w| - 1] == name;
    case _ =>
  }

  /** `[]` is the variable with the empty name. */
  lemma EmptyBracketsAreVariable()
    ensures ClassifySegment("[]") == Rules.Variable("")
  {
  }

  /** The resource of a permission line: one pattern per '/'-piece, in order. */
  function ParseResource(resource: string): (kinds: Rules.Resource)
    ensures |kinds| == |Split(resource)| > 0
    ensures forall i :: 0 <= i < |kinds| ==> kinds[i] == ClassifySegment(Split(resource)[i])
  {
    var pieces := Split(resource);
    seq(|pieces|, i requires 0 <= i < |pieces| => ClassifySegment(pieces[i]))
  }

  /** The text of a resource pattern: its segments' texts joined by '/'. */
  function ResourceText(kinds: Rules.Resource): string
    requires |kinds| > 0
  {
    Join(seq(|kinds|, i requires 0 <= i < |kinds| => SegmentText(kinds[i])))
  }

  /** Every resource string is the text of the pattern it parses to. */
  lemma ParseThenText(resource: string)
    ensures ResourceText(ParseResource(resource)) == resource
  {
    var pieces := Split(resource);
    var kinds := ParseResource(resource);
    var texts := seq(|kinds|, i requires 0 <= i < |kinds| => SegmentText(kinds[i]));
    forall i | 0 <= i < |pieces| ensures texts[i] == pieces[i] {
      ClassifyThenText(pieces[i]);
    }
    assert texts == pieces;
  }

  /** A pattern of writable segments parses back from its text. */
  lemma TextThenParse(kinds: Rules.Resource)
    requires |kinds| > 0 && forall i :: 0 <= i < |kinds| ==> Writable(kinds[i])
    ensures ParseResource(ResourceText(kinds)) == kinds
  {
    var texts := seq(|kinds|, i requires 0 <= i < |kinds| => SegmentText(kinds[i]));
    forall i | 0 <= i < |texts| ensures '/' !in texts[i] {
      match kinds[i]
      case Variable(name) =>
        assert texts[i] == ['['] + name + [']'];
      case Set(name) =>
        assert texts[i] == ['{'] + name + ['}'];
      case _ =>
    }
    SplitJoin(texts);
    forall i | 0 <= i < |kinds| ensures ParseResource(ResourceText(kinds))[i] == kinds[i] {
      TextThenClassify(kinds[i]);
    }
  }

  /** A resource with a leading '/' starts with the empty literal. */
  lemma LeadingSlashGivesEmptyLiteral(rest: string)
    ensures ParseResource("/" + rest)[0] == Rules.Literal("")
  {
    assert ("/" + rest)[1..] == rest;
  }

  // ---------------------------------------------------------------------
  // Lines to rules
  // ---------------------------------------------------------------------

  /**
   * `to_rule`: three tokens with `>` in the middle are a role rule (parent,
   * child), tried first; otherwise three tokens starting with `allow` or
   * `deny` are a permission rule; anything else is an error.
   */
  function ToRule(line: seq<string>): (r: Result<Rule, LineError>)
    ensures r.Ok? <==> |line| == 3 && (line[1] == ">" || line[0] == "allow" || line[0] == "deny")
    ensures r.Ok? && r.value.Permission? ==> |r.value.resource| > 0
  {
    if |line| == 3 && line[1] == ">" then
      Ok(Role(line[0], line[2]))
    else if |line| == 3 then
      if line[0] == "allow" then Ok(Permission(Rules.Allow, line[1], ParseResource(line[2])))
      else if line[0] == "deny" then Ok(Permission(Rules.Deny, line[1], ParseResource(line[2])))
      else Err(UnknownPermission(line[0]))
    else
      Err(WrongTokenCount(|line|))
  }

  /** The tokens of a rule's line. */
  function RuleTokens(rule: Rule): seq<string>
    requires rule.Permission? ==> |rule.resource| > 0
  {
    match rule
    case Role(parent, child) => [parent, ">", child]
    case Permission(p, role, resource) =>
      [if p == Rules.Allow then "allow" else "deny", role, ResourceText(resource)]
  }

  /** A rule that reads back from its own tokens. */
  predicate WritableRule(rule: Rule)
  {
    rule.Permission? ==>
      rule.roleName != ">" && |rule.resource| > 0 &&
      forall i :: 0 <= i < |rule.resource| ==> Writable(rule.resource[i])
  }

  /** Every accepted line is the tokens of the rule it parses to. */
  lemma ToRuleThenTokens(line: seq<string>)
    requires ToRule(line).Ok?
    ensures RuleTokens(ToRule(line).value) == line
  {
    if line[1] != ">" {
      ParseThenText(line[2]);
    }
  }

  /** A writable rule parses back from its tokens; a role line wins even over `allow`. */
  lemma TokensThenToRule(rule: Rule)
    requires WritableRule(rule)
    ensures ToRule(RuleTokens(rule)) == Ok(rule)
  {
    if rule.Permission? {
      TextThenParse(rule.resource);
    }
  }

  /**
   * `.map(to_rule).collect()` over the lines: the rules in line order, or the
   * error of the first bad line.
   */
  function ToRules(lines: seq<seq<string>>): (r: Result<seq<Rule>, ParseError>)
    ensures r.Ok? <==> forall i :: 0 <= i < |lines| ==> ToRule(lines[i]).Ok?
    ensures r.Ok? ==> |r.value| == |lines| &&
                      forall i :: 0 <= i < |lines| ==> r.value[i] == ToRule(lines[i]).value
    ensures r.Err? ==> exists i :: 0 <= i < |lines| && ToRule(lines[i]).Err? &&
                                   (forall k :: 0 <= k < i ==> ToRule(lines[k]).Ok?) &&
                                   r.error == BadLine(i, ToRule(lines[i]).error)
    decreases |lines|
  {
    if lines == [] then Ok([])
    else
      var init := lines[..|lines| - 1];
      assert forall k :: 0 <= k < |init| ==> init[k] == lines[k];
      match ToRules(init)
      case Err(e) => Err(e)
      case Ok(rules) =>
        match ToRule(lines[|lines| - 1])
        case Err(e) => Err(BadLine(|lines| - 1, e))
        case Ok(rule) => Ok(rules + [rule])
  }

  // ---------------------------------------------------------------------
  // Splitting the rules
  // ---------------------------------------------------------------------

  /** The role rules among `mixed`, in order. */
  function RoleRulesOf(mixed: seq<Rule>): (rs: seq<Roles.Rule>)
    ensures forall x :: x in rs <==> exists i :: 0 <= i < |mixed| && mixed[i] == Role(x.parent, x.child)
    decreases |mixed|
  {
    if mixed == [] then []
    else
      var init := mixed[..|mixed| - 1];
      assert forall k :: 0 <= k < |init| ==> init[k] == mixed[k];
      match mixed[|mixed| - 1]
      case Role(parent, child) => RoleRulesOf(init) + [Roles.Rule(parent, child)]
      case Permission(_, _, _) => RoleRulesOf(init)
  }

  /** The permission rules among `mixed`, in order. */
  function PermissionRulesOf(mixed: seq<Rule>): (ps: seq<Rules.PermissionRule>)
    ensures forall x :: x in ps <==>
              exists i :: 0 <= i < |mixed| && mixed[i] == Permission(x.permission, x.roleName, x.resource)
    decreases |mixed|
  {
    if mixed == [] then []
    else
      var init := mixed[..|mixed| - 1];
      assert forall k :: 0 <= k < |init| ==> init[k] == mixed[k];
      match mixed[|mixed| - 1]
      case Role(_, _) => PermissionRulesOf(init)
      case Permission(p, role, resource) => PermissionRulesOf(init) + [Rules.PermissionRule(p, role, resource)]
  }

  /** Every rule goes to exactly one side. */
  lemma {:induction false} SplitRulesPartition(mixed: seq<Rule>)
    ensures |RoleRulesOf(mixed)| + |PermissionRulesOf(mixed)| == |mixed|
    decreases |mixed|
  {
    if mixed != [] {
      SplitRulesPartition(mixed[..|mixed| - 1]);
    }
  }

  /** Splitting a concatenation splits each part: the relative order of rules is kept. */
  lemma {:induction false} SplitRulesKeepsOrder(a: seq<Rule>, b: seq<Rule>)
    ensures RoleRulesOf(a + b) == RoleRulesOf(a) + RoleRulesOf(b)
    ensures PermissionRulesOf(a + b) == PermissionRulesOf(a) + PermissionRulesOf(b)
    decreases |b|
  {
    if b == [] {
      assert a + b == a;
    } else {
      var init := b[..|b| - 1];
      SplitRulesKeepsOrder(a, init);
      assert (a + b)[..|a + b| - 1] == a + init;
    }
  }

  /** `split_rules`: role rules to the first output, permission rules to the second. */
  method SplitRules(mixed: seq<Rule>) returns (roleRules: seq<Roles.Rule>, permissionRules: seq<Rules.PermissionRule>)
    ensures roleRules == RoleRulesOf(mixed) && permissionRules == PermissionRulesOf(mixed)
    ensures |roleRules| + |permissionRules| == |mixed|
  {
    roleRules, permissionRules := [], [];
    var i := 0;
    while i < |mixed|
      invariant 0 <= i <= |mixed|
      invariant roleRules == RoleRulesOf(mixed[..i]) && permissionRules == PermissionRulesOf(mixed[..i])
    {
      assert mixed[..i + 1][..i] == mixed[..i];
      match mixed[i] {
        case Role(parent, child) =>
          roleRules := roleRules + [Roles.Rule(parent, child)];
        case Permission(permission, roleName, resource) =>
          permissionRules := permissionRules + [Rules.PermissionRule(permission, roleName, resource)];
      }
      i := i + 1;
    }
    assert mixed[..i] == mixed;
    SplitRulesPartition(mixed);
  }

  // ---------------------------------------------------------------------
  // The pipeline
  // ---------------------------------------------------------------------

  /** Permission rules taken from parsed lines have non-empty resources. */
  lemma ParsedPermissionRulesWellFormed(lines: seq<seq<string>>)
    requires ToRules(lines).Ok?
    ensures Permissions.WellFormed(PermissionRulesOf(ToRules(lines).value))
  {
    var rules := ToRules(lines).value;
    var ps := PermissionRulesOf(rules);
    forall j | 0 <= j < |ps| ensures |ps[j].resource| > 0 {
      assert ps[j] in ps;
      var i :| 0 <= i < |rules| && rules[i] == Permission(ps[j].permission, ps[j].roleName, ps[j].resource);
      assert rules[i] == ToRule(lines[i]).value;
    }
  }

  /**
   * `parse`: lines to rules, rules split, graph and tree built from their
   * parts, and a checker with an empty environment. It fails where the
   * source panics: on the first bad line, or on a child with two parents.
   */
  method Parse(lines: seq<seq<string>>) returns (r: Result<Access.AccessChecker, ParseError>)
    ensures ToRules(lines).Err? ==> r.Err? && r.error == ToRules(lines).error
    ensures ToRules(lines).Ok? ==>
              var roleRules := RoleRulesOf(ToRules(lines).value);
              (r.Ok? <==> Roles.DistinctChildren(roleRules)) &&
              (r.Err? ==> r.error.DuplicateChild?) &&
              (r.Ok? ==> fresh(r.value) &&
                         r.value.roleGraph.roles.Keys == Roles.Children(roleRules) &&
                         (forall i :: 0 <= i < |roleRules| ==>
                            r.value.roleGraph.roles[roleRules[i].child] == roleRules[i].parent) &&
                         r.value.permissionTree == Permissions.TreeOf(PermissionRulesOf(ToRules(lines).value)) &&
                         r.value.environment == Environments.Empty())
  {
    var parsed := ToRules(lines);
    if parsed.Err? {
      return Err(parsed.error);
    }
    var roleRules, permissionRules := SplitRules(parsed.value);
    var graph := Roles.FromRules(roleRules);
    if graph.Err? {
      return Err(DuplicateChild(graph.error.child));
    }
    ParsedPermissionRulesWellFormed(lines);
    var tree := Permissions.FromRules(permissionRules);
    var checker := new Access.AccessChecker(graph.value, tree);
    return Ok(checker);
  }
}
