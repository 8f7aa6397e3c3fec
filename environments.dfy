/** The evaluation context held by an access checker (src/access_checker.rs). */
module Environments {
  /** Variable bindings and named sets against which Variable and Set patterns are resolved. */
  datatype Environment = Environment(variables: map<string, string>, sets: map<string, seq<string>>)

  /** The environment a fresh access checker starts with: nothing bound, no sets. */
  function Empty(): (e: Environment)
    ensures |e.variables| == 0 && |e.sets| == 0
  {
    Environment(map[], map[])
  }
}
