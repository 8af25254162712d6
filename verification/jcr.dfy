/** The part of the JCR repository API that the version utilities read: nodes with types,
    properties and ordered children, versions with their frozen nodes, and the answers a plain
    (undecorated) node gives to the node calls the decorator cares about. */
module Jcr {
  import opened Wrappers
  import opened Seqs

  // Type, property and version names the utilities compare against.
  const NT_FROZEN_NODE: string := "nt:frozenNode"
  const JCR_FROZEN_PRIMARY_TYPE: string := "jcr:frozenPrimaryType"
  const NT_HANDLE: string := "hippo:handle"
  const MIX_VERSIONABLE: string := "mix:versionable"
  const NT_PUBLISHABLE: string := "hippostd:publishable"
  const HIPPOSTD_STATE: string := "hippostd:state"
  const UNPUBLISHED: string := "unpublished"
  const HIPPOSTD_STATESUMMARY: string := "hippostd:stateSummary"
  const LIVE: string := "live"
  const ROOT_VERSION_NAME: string := "jcr:rootVersion"

  /** The exceptions the modelled code can raise or let through. */
  datatype Error =
    | IllegalArgument(message: string)  // thrown by the decorator on a node that is not frozen
    | PathNotFound(name: string)        // a missing property or child node
    | NotAHippoNode                     // a HippoNode call on a decorator that does not implement it
    | UndeclaredThrowable(cause: Error) // a checked failure escaping a proxied method that does not declare it

  /** A repository node, frozen or live.
      `types` is every type name `isNodeType` accepts (primary type, its supertypes and
      mixins, flattened); `mixins` lists the names of the mixin types attached to the node;
      a `None` child is a null that the store's iterator hands out; `hippo` says whether
      the node object also offers the HippoNode capabilities. */
  datatype Node = Node(
    name: string,
    primaryType: string,
    types: set<string>,
    mixins: seq<string>,
    props: map<string, string>,
    children: seq<Option<Node>>,
    hippo: bool)

  /** The store never attaches a mixin that `isNodeType` would not accept. */
  predicate MixinsAccepted(n: Node) {
    forall i :: 0 <= i < |n.mixins| ==> n.mixins[i] in n.types
  }

  /** A version: its name, its creation instant, and its frozen node (absent for a null). */
  datatype Version = Version(name: string, created: int, frozenNode: Option<Node>)

  /** What the store's linear version iterator reports: `size` is its `getSize()` answer
      (-1 when unknown) and `versions` what repeated `nextVersion()` calls yield. */
  datatype VersionIterator = VersionIterator(size: int, versions: seq<Version>)

  /** A JCR iterator's `getSize()` is either -1 (unknown) or the number of elements. */
  predicate TruthfulSize(it: VersionIterator) {
    it.size == -1 || it.size == |it.versions|
  }

  /** `getProperty(name).getString()`: the value, or PathNotFound when the property is absent. */
  function PropertyValue(n: Node, propName: string): Result<string, Error> {
    if propName in n.props then Success(n.props[propName]) else Failure(PathNotFound(propName))
  }

  /** `JcrUtils.getStringProperty(node, name, default)`. */
  function GetStringProperty(n: Node, propName: string, default: Option<string>): Option<string> {
    if propName in n.props then Some(n.props[propName]) else default
  }

  /** The first child with the given name (JCR's `getNode` on one path segment). */
  function FirstChildNamed(children: seq<Option<Node>>, childName: string): (r: Option<Node>)
    ensures r.Some? ==> Some(r.value) in children && r.value.name == childName
    ensures r.None? <==> forall i :: 0 <= i < |children| ==> !(children[i].Some? && children[i].value.name == childName)
  {
    var k := FirstWhere(children, (c: Option<Node>) => c.Some? && c.value.name == childName);
    if k < |children| then children[k] else None
  }

  /** `getNode(relPath)` with the relative path given as its segments; the empty path is the
      node itself. A missing segment raises PathNotFound. */
  function ResolvePath(n: Node, relPath: seq<string>): Result<Node, Error>
    decreases |relPath|
  {
    if relPath == [] then Success(n)
    else
      match FirstChildNamed(n.children, relPath[0])
      case None => Failure(PathNotFound(relPath[0]))
      case Some(child) => ResolvePath(child, relPath[1..])
  }

  /** The three ways of asking a node for its children: all of them, by a name pattern, or by
      a list of name globs. */
  datatype NameFilter = AllNames | NamePattern(pattern: string) | NameGlobs(globs: seq<string>)

  /** The store's child enumeration. How a pattern or glob list matches a name is the store's
      business and is given as `matches`; the store keeps the stored order. */
  function StoreChildren(n: Node, filter: NameFilter, matches: (string, NameFilter) -> bool): seq<Option<Node>> {
    if filter.AllNames? then n.children else KeepMatching(n.children, filter, matches)
  }

  function KeepMatching(children: seq<Option<Node>>, filter: NameFilter, matches: (string, NameFilter) -> bool): (r: seq<Option<Node>>)
    ensures |r| <= |children|
    ensures forall c :: c in r ==> c in children
    ensures forall i :: 0 <= i < |r| && r[i].Some? ==> matches(r[i].value.name, filter)
  {
    if children == [] then []
    else
      var rest := KeepMatching(children[1..], filter, matches);
      match children[0]
      case None => [None] + rest
      case Some(c) => if matches(c.name, filter) then [Some(c)] + rest else rest
  }

  /** The non-null entries of a child sequence, in order. */
  function NonNull(children: seq<Option<Node>>): (r: seq<Node>)
    ensures |r| <= |children|
    ensures forall n :: n in r <==> Some(n) in children
  {
    if children == [] then []
    else
      match children[0]
      case None => NonNull(children[1..])
      case Some(c) => [c] + NonNull(children[1..])
  }

  /** The calls of `javax.jcr.Node` this model distinguishes. */
  datatype NodeCall =
    | GetPrimaryNodeType
    | IsNodeType(typeName: string)
    | GetNode(relPath: seq<string>)
    | GetNodes(filter: NameFilter)
    | GetName
    | HasNode(relPath: seq<string>)
    | HasProperty(propName: string)
    | GetProperty(propName: string)
    | GetMixinNodeTypes

  /** What a plain node answers. */
  datatype Answer =
    | TypeName(name: string)
    | Bool(b: bool)
    | Str(s: string)
    | Names(names: seq<string>)
    | NodeRef(node: Node)
    | NodeList(nodes: seq<Option<Node>>)

  /** A plain node's own answer to a node call. */
  function Invoke(n: Node, call: NodeCall, matches: (string, NameFilter) -> bool): Result<Answer, Error> {
    match call
    case GetPrimaryNodeType => Success(TypeName(n.primaryType))
    case IsNodeType(t) => Success(Bool(t in n.types))
    case GetNode(relPath) =>
      var child :- ResolvePath(n, relPath);
      Success(NodeRef(child))
    case GetNodes(filter) => Success(NodeList(StoreChildren(n, filter, matches)))
    case GetName => Success(Str(n.name))
    case HasNode(relPath) => Success(Bool(ResolvePath(n, relPath).Success?))
    case HasProperty(propName) => Success(Bool(propName in n.props))
    case GetProperty(propName) =>
      var value :- PropertyValue(n, propName);
      Success(Str(value))
    case GetMixinNodeTypes => Success(Names(n.mixins))
  }
}
