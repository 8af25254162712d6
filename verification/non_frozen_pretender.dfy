/** The shape of a decorated frozen node: a node object that answers the ordinary node calls
    while reading from the frozen node it wraps, plus three accessors for what it was built from. */
module NonFrozenPretender {
  import opened Wrappers
  import opened Jcr

  /** Which interfaces the decorator implements: only the plain node contract, or also the
      HippoNode one. */
  datatype Variant = PlainPretender | HippoPretender

  /** A decorated frozen node. It refers to the frozen node, it does not copy it; `created`
      and `asOf` are carried for callers and take no part in any answer. */
  datatype PretenderNode = PretenderNode(frozenNode: Node, created: int, asOf: Option<int>, variant: Variant)

  /** `getFrozenNode()`: the wrapped frozen node itself. */
  function GetFrozenNode(p: PretenderNode): Node {
    p.frozenNode
  }

  /** `getCreated()`: the creation instant given at wrap time. */
  function GetCreated(p: PretenderNode): int {
    p.created
  }

  /** `getAsOf()`: the requested instant given at wrap time, possibly absent. */
  function GetAsOf(p: PretenderNode): Option<int> {
    p.asOf
  }
}
