/** The decorator that lets a frozen node (`nt:frozenNode`) pass for a node of its real type:
    type queries answer with the recorded real type, child access wraps recursively, the
    HippoNode extras give fixed answers, and everything else is read from the frozen node. */
module FrozenNodeUtils {
  import opened Wrappers
  import opened Jcr
  import opened NonFrozenPretender

  // ---------------------------------------------------------------------------
  // Wrapping
  // ---------------------------------------------------------------------------

  /** The decorator variant for a frozen node: the HippoNode one exactly when the node object
      itself offers the HippoNode capabilities (a capability check, not a type-name check). */
  function VariantFor(frozenNode: Node): Variant {
    if frozenNode.hippo then HippoPretender else PlainPretender
  }

  /** What every decorator built by `GetNonFrozenPretenderNode` satisfies. */
  predicate WellFormed(p: PretenderNode) {
    NT_FROZEN_NODE in p.frozenNode.types && p.variant == VariantFor(p.frozenNode)
  }

  /** `getNonFrozenPretenderNode`: refuses a node that is not of type nt:frozenNode with an
      IllegalArgument error; otherwise wraps that very node together with `created` and
      `asOf`, in the variant its capabilities call for. */
  function GetNonFrozenPretenderNode(frozenNode: Node, created: int, asOf: Option<int>): (r: Result<PretenderNode, Error>)
    ensures r.Failure? <==> NT_FROZEN_NODE !in frozenNode.types
    ensures r.Failure? ==> r.error.IllegalArgument?
    ensures r.Success? ==> WellFormed(r.value)
    ensures r.Success? ==>
      && GetFrozenNode(r.value) == frozenNode
      && GetCreated(r.value) == created
      && GetAsOf(r.value) == asOf
    ensures r.Success? ==> (r.value.variant == HippoPretender <==> frozenNode.hippo)
  {
    if NT_FROZEN_NODE !in frozenNode.types then
      Failure(IllegalArgument("frozenNode must be type of nt:frozenNode"))
    else
      Success(PretenderNode(frozenNode, created, asOf, VariantFor(frozenNode)))
  }

  /** The accessors give back exactly what the decorator was built from, and every well-formed
      decorator is what wrapping its own frozen node, creation instant and requested instant
      produces. */
  lemma PretenderRoundTrip(p: PretenderNode, frozenNode: Node, created: int, asOf: Option<int>)
    ensures WellFormed(p) ==> GetNonFrozenPretenderNode(GetFrozenNode(p), GetCreated(p), GetAsOf(p)) == Success(p)
    ensures GetNonFrozenPretenderNode(frozenNode, created, asOf) == Success(p) ==>
      GetFrozenNode(p) == frozenNode && GetCreated(p) == created && GetAsOf(p) == asOf
  {
  }

  // ---------------------------------------------------------------------------
  // Type identity
  // ---------------------------------------------------------------------------

  /** The node type object the decorator hands out for `getPrimaryNodeType()`: the frozen
      node's own type object (`frozenType`, always nt:frozenNode in practice), whose name is
      read from the frozen node when asked. */
  datatype PrimaryTypeProxy = PrimaryTypeProxy(frozenType: string, frozenNode: Node)

  /** `getPrimaryNodeType()` on the decorator: the frozen node's own type object stays
      underneath, yet its name is the recorded real type, read only when asked. */
  function PrimaryNodeType(p: PretenderNode): (t: PrimaryTypeProxy)
    ensures t.frozenType == GetFrozenNode(p).primaryType
    ensures PrimaryTypeName(t).Success? <==> JCR_FROZEN_PRIMARY_TYPE in GetFrozenNode(p).props
    ensures PrimaryTypeName(t).Success? ==> PrimaryTypeName(t).value == GetFrozenNode(p).props[JCR_FROZEN_PRIMARY_TYPE]
  {
    PrimaryTypeProxy(p.frozenNode.primaryType, p.frozenNode)
  }

  /** `getName()` on the primary type object: the frozen node's jcr:frozenPrimaryType value, not
      the frozen type's own name. `NodeType.getName()` declares no checked exception, so when
      the property is missing the proxy lets the PathNotFound through only wrapped as an
      undeclared throwable. */
  function PrimaryTypeName(t: PrimaryTypeProxy): (r: Result<string, Error>)
    ensures r.Success? <==> JCR_FROZEN_PRIMARY_TYPE in t.frozenNode.props
    ensures r.Success? ==> r.value == t.frozenNode.props[JCR_FROZEN_PRIMARY_TYPE]
    ensures r.Failure? ==> r.error == UndeclaredThrowable(PathNotFound(JCR_FROZEN_PRIMARY_TYPE))
  {
    match PropertyValue(t.frozenNode, JCR_FROZEN_PRIMARY_TYPE)
    case Success(frozenType) => Success(frozenType)
    case Failure(e) => Failure(UndeclaredThrowable(e))
  }

  /** `proxyIsNodeType`: a type is accepted when the frozen node itself is of that type, when
      it is the recorded real primary type, or when it names an attached mixin. The property is
      only read once the first test fails, so a frozen node without jcr:frozenPrimaryType still
      answers for its own types and fails for every other. (The Java signature also takes
      `created` and `asOf`, which it does not use.) */
  function ProxyIsNodeType(frozenNode: Node, nodeType: string): (r: Result<bool, Error>)
    ensures r == Success(true) <==>
      || nodeType in frozenNode.types
      || (JCR_FROZEN_PRIMARY_TYPE in frozenNode.props &&
          (nodeType == frozenNode.props[JCR_FROZEN_PRIMARY_TYPE] || nodeType in frozenNode.mixins))
    ensures r.Failure? <==> nodeType !in frozenNode.types && JCR_FROZEN_PRIMARY_TYPE !in frozenNode.props
    ensures r.Failure? ==> r.error == PathNotFound(JCR_FROZEN_PRIMARY_TYPE)
  {
    if nodeType in frozenNode.types then Success(true)
    else
      var frozenType :- PropertyValue(frozenNode, JCR_FROZEN_PRIMARY_TYPE);
      if nodeType == frozenType then Success(true)
      else Success(MixinNamed(frozenNode.mixins, nodeType))
  }

  /** The loop over the attached mixin types. */
  function MixinNamed(mixins: seq<string>, nodeType: string): (found: bool)
    ensures found <==> nodeType in mixins
  {
    if mixins == [] then false
    else if nodeType == mixins[0] then true
    else MixinNamed(mixins[1..], nodeType)
  }

  /** In a store whose attached mixins are all accepted by `isNodeType`, asking a frozen node
      about one of its mixins is answered by the first test, before jcr:frozenPrimaryType is
      read, so it never fails. */
  lemma MixinNeverFails(frozenNode: Node, nodeType: string)
    requires MixinsAccepted(frozenNode)
    requires nodeType in frozenNode.mixins
    ensures ProxyIsNodeType(frozenNode, nodeType) == Success(true)
  {
  }

  // ---------------------------------------------------------------------------
  // Child access
  // ---------------------------------------------------------------------------

  /** `proxyGetNode`: the frozen node's own `getNode(relPath)`, wrapped with the same `created`
      and `asOf`. A missing path fails as the frozen node fails; a child that is not frozen
      fails with IllegalArgument. */
  function ProxyGetNode(frozenNode: Node, created: int, asOf: Option<int>, relPath: seq<string>): (r: Result<PretenderNode, Error>)
    ensures var child := ResolvePath(frozenNode, relPath);
      && (child.Failure? ==> r == Failure(child.error))
      && (child.Success? ==> (r.Success? <==> NT_FROZEN_NODE in child.value.types))
      && (r.Success? ==> child.Success? && GetFrozenNode(r.value) == child.value)
    ensures r.Success? ==> GetCreated(r.value) == created && GetAsOf(r.value) == asOf && WellFormed(r.value)
  {
    var childFrozenNode :- ResolvePath(frozenNode, relPath);
    GetNonFrozenPretenderNode(childFrozenNode, created, asOf)
  }

  /** `decorated` wraps `frozenNodes` one for one, in order, all with the same instants. */
  predicate WrapsInOrder(decorated: seq<PretenderNode>, frozenNodes: seq<Node>, created: int, asOf: Option<int>) {
    && |decorated| == |frozenNodes|
    && forall k :: 0 <= k < |decorated| ==>
         && GetFrozenNode(decorated[k]) == frozenNodes[k]
         && GetCreated(decorated[k]) == created
         && GetAsOf(decorated[k]) == asOf
         && WellFormed(decorated[k])
  }

  /** The loop shared by the three `proxyGetNodes` overloads: nulls are skipped, every other
      child is wrapped, and the first child that is not frozen makes the whole call fail. */
  function PretendAll(children: seq<Option<Node>>, created: int, asOf: Option<int>): (r: Result<seq<PretenderNode>, Error>)
    ensures r.Success? <==> forall i :: 0 <= i < |children| && children[i].Some? ==> NT_FROZEN_NODE in children[i].value.types
    ensures r.Success? ==> WrapsInOrder(r.value, NonNull(children), created, asOf)
    ensures r.Failure? ==> r.error.IllegalArgument?
  {
    if children == [] then Success([])
    else
      match children[0]
      case None => PretendAll(children[1..], created, asOf)
      case Some(child) =>
        var head :- GetNonFrozenPretenderNode(child, created, asOf);
        var tail :- PretendAll(children[1..], created, asOf);
        Success([head] + tail)
  }

  /** `proxyGetNodes()`: every non-null child of the frozen node, wrapped, in stored order. */
  function ProxyGetNodes(frozenNode: Node, created: int, asOf: Option<int>): (r: Result<seq<PretenderNode>, Error>)
    ensures r.Success? <==> forall c :: c in NonNull(frozenNode.children) ==> NT_FROZEN_NODE in c.types
    ensures r.Success? ==> WrapsInOrder(r.value, NonNull(frozenNode.children), created, asOf)
    ensures r.Failure? ==> r.error.IllegalArgument?
  {
    PretendAll(frozenNode.children, created, asOf)
  }

  /** `proxyGetNodes(namePattern)`: the same over the children the store lists for the pattern. */
  function ProxyGetNodesByPattern(frozenNode: Node, created: int, asOf: Option<int>, namePattern: string,
                                  matches: (string, NameFilter) -> bool): (r: Result<seq<PretenderNode>, Error>)
    ensures var listed := NonNull(StoreChildren(frozenNode, NamePattern(namePattern), matches));
      && (r.Success? <==> forall c :: c in listed ==> NT_FROZEN_NODE in c.types)
      && (r.Success? ==> WrapsInOrder(r.value, listed, created, asOf))
      && (r.Success? ==> forall k :: 0 <= k < |r.value| ==>
            Some(GetFrozenNode(r.value[k])) in frozenNode.children && matches(GetFrozenNode(r.value[k]).name, NamePattern(namePattern)))
  {
    PretendAll(StoreChildren(frozenNode, NamePattern(namePattern), matches), created, asOf)
  }

  /** `proxyGetNodes(nameGlobs)`: the same over the children the store lists for the globs. */
  function ProxyGetNodesByGlobs(frozenNode: Node, created: int, asOf: Option<int>, nameGlobs: seq<string>,
                                matches: (string, NameFilter) -> bool): (r: Result<seq<PretenderNode>, Error>)
    ensures var listed := NonNull(StoreChildren(frozenNode, NameGlobs(nameGlobs), matches));
      && (r.Success? <==> forall c :: c in listed ==> NT_FROZEN_NODE in c.types)
      && (r.Success? ==> WrapsInOrder(r.value, listed, created, asOf))
      && (r.Success? ==> forall k :: 0 <= k < |r.value| ==>
            Some(GetFrozenNode(r.value[k])) in frozenNode.children && matches(GetFrozenNode(r.value[k]).name, NameGlobs(nameGlobs)))
  {
    PretendAll(StoreChildren(frozenNode, NameGlobs(nameGlobs), matches), created, asOf)
  }

  // ---------------------------------------------------------------------------
  // HippoNode extras
  // ---------------------------------------------------------------------------

  /** A locale key of the localized-names map: the unlocalized key or a particular locale. */
  datatype LocaleKey = NoLocale | ForLocale(tag: string)

  /** `getLocalizedNames()` on the decorator: the plain name under the unlocalized key and
      under the platform's default locale, and no other key. */
  function LocalizedNames(frozenNode: Node, defaultLocale: string): (names: map<LocaleKey, string>)
    ensures names.Keys == {NoLocale, ForLocale(defaultLocale)}
    ensures forall key :: key in names ==> names[key] == frozenNode.name
  {
    map[NoLocale := frozenNode.name, ForLocale(defaultLocale) := frozenNode.name]
  }

  // ---------------------------------------------------------------------------
  // Dispatch
  // ---------------------------------------------------------------------------

  /** HippoNode calls the decorator answers itself. */
  datatype HippoCall =
    | GetLocalizedName(locale: Option<LocaleKey>)
    | GetLocalizedNames
    | GetCanonicalNode
    | PendingChanges
    | IsVirtual
    | RecomputeDerivedData

  /** The decorator's own accessors. */
  datatype PretenderCall = FrozenNodeQuery | CreatedQuery | AsOfQuery

  /** A call on the decorator, grouped by the interface that declares it. */
  datatype Call =
    | NodeMethod(nodeCall: NodeCall)
    | HippoNodeMethod(hippoCall: HippoCall)
    | PretenderMethod(pretenderCall: PretenderCall)

  /** What the decorator answers: the frozen node's own answer, or one of its own making. */
  datatype ProxyAnswer =
    | Delegated(answer: Answer)
    | TypeObject(proxy: PrimaryTypeProxy)
    | Decorated(node: PretenderNode)
    | DecoratedList(nodes: seq<PretenderNode>)
    | LocalizedNameMap(names: map<LocaleKey, string>)
    | CreatedAt(created: int)
    | RequestedAsOf(asOf: Option<int>)
    | NoValue

  /** Node calls the decorator answers itself instead of passing them on. */
  predicate Intercepted(call: NodeCall) {
    call.GetPrimaryNodeType? || call.IsNodeType? || call.GetNode? || call.GetNodes?
  }

  function Delegate(r: Result<Answer, Error>): Result<ProxyAnswer, Error> {
    match r
    case Success(a) => Success(Delegated(a))
    case Failure(e) => Failure(e)
  }

  /** The node interceptor: the listed node calls are answered by the decorator, HippoNode
      calls exist only on the HippoNode variant, and every other call proceeds to the frozen
      node. `matches` is the store's name matcher and `defaultLocale` the platform default. */
  function Intercept(p: PretenderNode, call: Call, matches: (string, NameFilter) -> bool, defaultLocale: string): (r: Result<ProxyAnswer, Error>)
    ensures call == NodeMethod(GetPrimaryNodeType) ==> r == Success(TypeObject(PrimaryNodeType(p)))
    ensures call.NodeMethod? && call.nodeCall.IsNodeType? ==>
      var accepted := ProxyIsNodeType(GetFrozenNode(p), call.nodeCall.typeName);
      && (accepted.Success? ==> r == Success(Delegated(Bool(accepted.value))))
      && (accepted.Failure? ==> r == Failure(accepted.error))
    ensures call.NodeMethod? && call.nodeCall.GetNode? ==>
      var child := ProxyGetNode(GetFrozenNode(p), GetCreated(p), GetAsOf(p), call.nodeCall.relPath);
      && (child.Success? ==> r == Success(Decorated(child.value)))
      && (child.Failure? ==> r == Failure(child.error))
    ensures call == NodeMethod(GetNodes(AllNames)) ==>
      var children := ProxyGetNodes(GetFrozenNode(p), GetCreated(p), GetAsOf(p));
      && (children.Success? ==> r == Success(DecoratedList(children.value)))
      && (children.Failure? ==> r == Failure(children.error))
    ensures call.NodeMethod? && call.nodeCall.GetNodes? && call.nodeCall.filter.NamePattern? ==>
      var children := ProxyGetNodesByPattern(GetFrozenNode(p), GetCreated(p), GetAsOf(p), call.nodeCall.filter.pattern, matches);
      && (children.Success? ==> r == Success(DecoratedList(children.value)))
      && (children.Failure? ==> r == Failure(children.error))
    ensures call.NodeMethod? && call.nodeCall.GetNodes? && call.nodeCall.filter.NameGlobs? ==>
      var children := ProxyGetNodesByGlobs(GetFrozenNode(p), GetCreated(p), GetAsOf(p), call.nodeCall.filter.globs, matches);
      && (children.Success? ==> r == Success(DecoratedList(children.value)))
      && (children.Failure? ==> r == Failure(children.error))
    ensures call.NodeMethod? && !Intercepted(call.nodeCall) ==> r == Delegate(Invoke(GetFrozenNode(p), call.nodeCall, matches))
    ensures call.HippoNodeMethod? ==> (r == Failure(NotAHippoNode) <==> p.variant == PlainPretender)
    ensures call == PretenderMethod(FrozenNodeQuery) ==> r == Success(Delegated(NodeRef(GetFrozenNode(p))))
    ensures call == PretenderMethod(CreatedQuery) ==> r == Success(CreatedAt(GetCreated(p)))
    ensures call == PretenderMethod(AsOfQuery) ==> r == Success(RequestedAsOf(GetAsOf(p)))
  {
    match call
    case NodeMethod(nodeCall) =>
      (match nodeCall
       case GetPrimaryNodeType => Success(TypeObject(PrimaryNodeType(p)))
       case IsNodeType(nodeType) =>
         var accepted :- ProxyIsNodeType(p.frozenNode, nodeType);
         Success(Delegated(Bool(accepted)))
       case GetNode(relPath) =>
         var child :- ProxyGetNode(p.frozenNode, p.created, p.asOf, relPath);
         Success(Decorated(child))
       case GetNodes(AllNames) =>
         var children :- ProxyGetNodes(p.frozenNode, p.created, p.asOf);
         Success(DecoratedList(children))
       case GetNodes(NameGlobs(nameGlobs)) =>
         var children :- ProxyGetNodesByGlobs(p.frozenNode, p.created, p.asOf, nameGlobs, matches);
         Success(DecoratedList(children))
       case GetNodes(NamePattern(namePattern)) =>
         var children :- ProxyGetNodesByPattern(p.frozenNode, p.created, p.asOf, namePattern, matches);
         Success(DecoratedList(children))
       case _ => Delegate(Invoke(p.frozenNode, nodeCall, matches)))
    case HippoNodeMethod(hippoCall) =>
      if p.variant == PlainPretender then Failure(NotAHippoNode)
      else
        (match hippoCall
         case GetLocalizedName(_) => Success(Delegated(Str(p.frozenNode.name)))
         case GetLocalizedNames => Success(LocalizedNameMap(LocalizedNames(p.frozenNode, defaultLocale)))
         case GetCanonicalNode => Success(Delegated(NodeRef(p.frozenNode)))
         case PendingChanges => Success(Delegated(NodeList([])))
         case IsVirtual => Success(Delegated(Bool(false)))
         case RecomputeDerivedData => Success(NoValue))
    case PretenderMethod(pretenderCall) =>
      (match pretenderCall
       case FrozenNodeQuery => Success(Delegated(NodeRef(GetFrozenNode(p))))
       case CreatedQuery => Success(CreatedAt(GetCreated(p)))
       case AsOfQuery => Success(RequestedAsOf(GetAsOf(p))))
  }

  // ---------------------------------------------------------------------------
  // Properties of the decorator
  // ---------------------------------------------------------------------------

  /** Every node call the decorator does not answer itself gets exactly the frozen node's answer. */
  lemma PassThrough(p: PretenderNode, nodeCall: NodeCall, matches: (string, NameFilter) -> bool, defaultLocale: string)
    requires !Intercepted(nodeCall)
    ensures Intercept(p, NodeMethod(nodeCall), matches, defaultLocale) == Delegate(Invoke(p.frozenNode, nodeCall, matches))
  {
  }

  /** A decorated frozen node reports the recorded real type as its primary type name and
      accepts both nt:frozenNode and the real type, as well as every attached mixin. */
  lemma PretendsRealType(frozenNode: Node, created: int, asOf: Option<int>, matches: (string, NameFilter) -> bool, defaultLocale: string)
    requires NT_FROZEN_NODE in frozenNode.types
    requires JCR_FROZEN_PRIMARY_TYPE in frozenNode.props
    ensures var p := GetNonFrozenPretenderNode(frozenNode, created, asOf).value;
      var realType := frozenNode.props[JCR_FROZEN_PRIMARY_TYPE];
      && PrimaryTypeName(PrimaryNodeType(p)) == Success(realType)
      && Intercept(p, NodeMethod(IsNodeType(NT_FROZEN_NODE)), matches, defaultLocale) == Success(Delegated(Bool(true)))
      && Intercept(p, NodeMethod(IsNodeType(realType)), matches, defaultLocale) == Success(Delegated(Bool(true)))
      && (forall m :: m in frozenNode.mixins ==>
            Intercept(p, NodeMethod(IsNodeType(m)), matches, defaultLocale) == Success(Delegated(Bool(true))))
  {
  }

  /** On the HippoNode variant the HippoNode calls give their fixed answers: the plain name for
      every locale, the frozen node as canonical node, no pending changes, not virtual, and a
      no-op recompute. On the plain variant these calls do not exist. */
  lemma HippoCallAnswers(p: PretenderNode, hippoCall: HippoCall, matches: (string, NameFilter) -> bool, defaultLocale: string)
    ensures p.variant == PlainPretender ==>
      Intercept(p, HippoNodeMethod(hippoCall), matches, defaultLocale) == Failure(NotAHippoNode)
    ensures p.variant == HippoPretender ==>
      var r := Intercept(p, HippoNodeMethod(hippoCall), matches, defaultLocale);
      && (hippoCall.GetLocalizedName? ==> r == Success(Delegated(Str(GetFrozenNode(p).name))))
      && (hippoCall.GetLocalizedNames? ==>
            r.Success? && r.value.LocalizedNameMap? &&
            r.value.names.Keys == {NoLocale, ForLocale(defaultLocale)} &&
            forall key :: key in r.value.names ==> r.value.names[key] == GetFrozenNode(p).name)
      && (hippoCall.GetCanonicalNode? ==> r == Success(Delegated(NodeRef(GetFrozenNode(p)))))
      && (hippoCall.PendingChanges? ==> r == Success(Delegated(NodeList([]))))
      && (hippoCall.IsVirtual? ==> r == Success(Delegated(Bool(false))))
      && (hippoCall.RecomputeDerivedData? ==> r == Success(NoValue))
  {
  }

  /** Navigating one path segment at a time, as client code does with repeated `getNode`
      calls on the decorated nodes it receives. */
  function WalkPretender(p: PretenderNode, relPath: seq<string>): Result<PretenderNode, Error>
    decreases |relPath|
  {
    if relPath == [] then Success(p)
    else
      var child :- ProxyGetNode(p.frozenNode, p.created, p.asOf, [relPath[0]]);
      WalkPretender(child, relPath[1..])
  }

  /** Decoration is recursive and refers to the frozen nodes themselves: walking down a
      decorated tree segment by segment reaches the decorator of the very frozen node that the
      frozen tree's own path lookup reaches, with unchanged `created` and `asOf`. */
  lemma {:induction false} WalkAgreesWithPath(p: PretenderNode, relPath: seq<string>)
    requires WellFormed(p)
    ensures var walked := WalkPretender(p, relPath);
      walked.Success? ==>
        && ProxyGetNode(p.frozenNode, p.created, p.asOf, relPath) == walked
        && GetFrozenNode(walked.value) == ResolvePath(GetFrozenNode(p), relPath).value
        && GetCreated(walked.value) == GetCreated(p)
        && GetAsOf(walked.value) == GetAsOf(p)
    decreases |relPath|
  {
    if relPath != [] && WalkPretender(p, relPath).Success? {
      var child := ProxyGetNode(p.frozenNode, p.created, p.asOf, [relPath[0]]).value;
      var c := FirstChildNamed(p.frozenNode.children, relPath[0]).value;
      var head := [relPath[0]];
      assert head[0] == relPath[0] && head[1..] == [];
      assert ResolvePath(p.frozenNode, head) == Success(c);
      assert ResolvePath(p.frozenNode, relPath) == ResolvePath(c, relPath[1..]);
      WalkAgreesWithPath(child, relPath[1..]);
    }
  }
}
