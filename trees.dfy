/**
 * The configuration values the pipeline passes between its stages.
 */
module Trees {

  import opened Results

  newtype byte = b: int | 0 <= b < 256

  /** The raw contents of one configuration file. */
  type Bytes = seq<byte>

  /**
   * A decoded YAML value as the resolver sees it: a nested mapping or a string
   * leaf. Any other leaf makes the Go resolver panic at its type assertion, so
   * the model has no other kind of leaf.
   */
  datatype Tree = Str(s: string) | Map(entries: map<string, Tree>)

  /** One parsed top-level document, and the merged configuration. */
  type Document = map<string, Tree>

  /** The value reached by following `path` from `t`, if there is one. */
  function At(t: Tree, path: seq<string>): Option<Tree>
    decreases |path|
  {
    if path == [] then Some(t)
    else match t
      case Str(_) => None
      case Map(m) => if path[0] in m then At(m[path[0]], path[1..]) else None
  }
}
