/** Concrete situations: the fixture of the decorator's unit test, and a four-version history
    with a non-live version between two live ones. */
module Scenarios {
  import opened Wrappers
  import opened Jcr
  import opened JcrVersionUtils
  import opened NonFrozenPretender
  import opened FrozenNodeUtils

  /** The frozen rich-text child of the test fixture. */
  function DescriptionNode(): Node {
    Node("ns1:description", NT_FROZEN_NODE, {NT_FROZEN_NODE}, [],
         map[JCR_FROZEN_PRIMARY_TYPE := "hippostd:html", "hippostd:content" := "<p>Magnetic Resonance imaging</p>"],
         [], false)
  }

  /** The frozen document node of the test fixture, of real type ns1:service. */
  function ServiceNode(): Node {
    Node("jcr:frozenNode", NT_FROZEN_NODE, {NT_FROZEN_NODE}, [],
         map[JCR_FROZEN_PRIMARY_TYPE := "ns1:service", "ns1:title" := "MRI", "ns1:variableid" := "mri"],
         [Some(DescriptionNode())], false)
  }

  /** The decorator of the fixture node as `getNonFrozenPretenderNode` builds it. */
  lemma FixtureDecorator(now: int)
    ensures GetNonFrozenPretenderNode(ServiceNode(), now, Some(now)) == Success(PretenderNode(ServiceNode(), now, Some(now), PlainPretender))
  {
  }

  /** The unit test's type assertions on the decorated fixture node: the frozen node alone is
      not of its real type, the decorator is, and it hands back what it was built from. */
  lemma PretendNotFrozenScenario(now: int, matches: (string, NameFilter) -> bool, defaultLocale: string)
    ensures Invoke(ServiceNode(), IsNodeType("ns1:service"), matches) == Success(Bool(false))
    ensures var r := GetNonFrozenPretenderNode(ServiceNode(), now, Some(now));
      && r.Success?
      && GetFrozenNode(r.value) == ServiceNode()
      && GetCreated(r.value) == now
      && GetAsOf(r.value) == Some(now)
      && Intercept(r.value, NodeMethod(IsNodeType(NT_FROZEN_NODE)), matches, defaultLocale) == Success(Delegated(Bool(true)))
      && Intercept(r.value, NodeMethod(IsNodeType("ns1:service")), matches, defaultLocale) == Success(Delegated(Bool(true)))
      && PrimaryTypeName(PrimaryNodeType(r.value)) == Success("ns1:service")
  {
    FixtureDecorator(now);
  }

  /** The unit test's read-through assertions on the decorated fixture node: property values
      and the existence of the child come from the frozen node. */
  lemma ReadThroughScenario(now: int, matches: (string, NameFilter) -> bool, defaultLocale: string)
    ensures var p := PretenderNode(ServiceNode(), now, Some(now), PlainPretender);
      && Intercept(p, NodeMethod(GetProperty("ns1:title")), matches, defaultLocale) == Success(Delegated(Str("MRI")))
      && Intercept(p, NodeMethod(GetProperty("ns1:variableid")), matches, defaultLocale) == Success(Delegated(Str("mri")))
      && Intercept(p, NodeMethod(HasNode(["ns1:description"])), matches, defaultLocale) == Success(Delegated(Bool(true)))
  {
    var service := ServiceNode();
    assert FirstChildNamed(service.children, "ns1:description") == Some(DescriptionNode());
    assert ResolvePath(service, ["ns1:description"]) == Success(DescriptionNode());
  }

  /** The unit test's assertions on the decorated child: it decorates the frozen child itself and
      is of both nt:frozenNode and its own real type, whose properties read through. */
  lemma PretendNotFrozenChildScenario(now: int, matches: (string, NameFilter) -> bool, defaultLocale: string)
    ensures var p := PretenderNode(ServiceNode(), now, Some(now), PlainPretender);
      var child := ProxyGetNode(ServiceNode(), now, Some(now), ["ns1:description"]);
      && child.Success?
      && Intercept(p, NodeMethod(GetNode(["ns1:description"])), matches, defaultLocale) == Success(Decorated(child.value))
      && GetFrozenNode(child.value) == DescriptionNode()
      && Intercept(child.value, NodeMethod(IsNodeType(NT_FROZEN_NODE)), matches, defaultLocale) == Success(Delegated(Bool(true)))
      && Intercept(child.value, NodeMethod(IsNodeType("hippostd:html")), matches, defaultLocale) == Success(Delegated(Bool(true)))
      && Intercept(child.value, NodeMethod(GetProperty("hippostd:content")), matches, defaultLocale)
           == Success(Delegated(Str("<p>Magnetic Resonance imaging</p>")))
  {
    var service := ServiceNode();
    assert FirstChildNamed(service.children, "ns1:description") == Some(DescriptionNode());
    assert ResolvePath(service, ["ns1:description"]) == Success(DescriptionNode());
  }

  /** A node that is not frozen cannot be decorated. */
  lemma NotFrozenIsRefused(now: int)
    ensures GetNonFrozenPretenderNode(DescriptionNode().(types := {"hippostd:html"}), now, None).Failure?
  {
  }

  function FrozenWithSummary(summary: Option<string>): Node {
    Node("jcr:frozenNode", NT_FROZEN_NODE, {NT_FROZEN_NODE}, [],
         if summary.Some? then map[HIPPOSTD_STATESUMMARY := summary.value] else map[],
         [], false)
  }

  /** Root marker at 0, live 1.0 at 10, a non-live 1.1 at 20, live 1.2 at 30. */
  function History(): seq<Version> {
    [ Version(ROOT_VERSION_NAME, 0, Some(FrozenWithSummary(None))),
      Version("1.0", 10, Some(FrozenWithSummary(Some(LIVE)))),
      Version("1.1", 20, Some(FrozenWithSummary(Some("changed")))),
      Version("1.2", 30, Some(FrozenWithSummary(Some(LIVE)))) ]
  }

  lemma HistoryLiveness()
    ensures !HasLiveFrozenNode(History()[0]) && HasLiveFrozenNode(History()[1])
    ensures !HasLiveFrozenNode(History()[2]) && HasLiveFrozenNode(History()[3])
  {
  }

  /** Every instant before the first live version finds nothing. */
  lemma HistoryBeforeFirstLive(asOf: int)
    requires asOf < 10
    ensures AsOfIndex(History(), asOf) == None
  {
    HistoryLiveness();
    var h := History();
    assert LiveChronological(h);
    ChronologicalAsOf(h, asOf);
  }

  /** At every instant from live 1.0 up to, not including, live 1.2, version 1.0 answers; the
      non-live 1.1 in between is skipped although its instant may be closer. */
  lemma HistoryBetweenLive(asOf: int)
    requires 10 <= asOf < 30
    ensures AsOfIndex(History(), asOf) == Some(1)
  {
    HistoryLiveness();
    var h := History();
    assert LiveChronological(h);
    ChronologicalAsOf(h, asOf);
    assert QualifiesAt(asOf)(h[1]);
    assert !QualifiesAt(asOf)(h[2]) && !QualifiesAt(asOf)(h[3]);
  }

  /** From the last live version on, that version answers. */
  lemma HistoryAfterLastLive(asOf: int)
    requires asOf >= 30
    ensures AsOfIndex(History(), asOf) == Some(3)
  {
    HistoryLiveness();
    var h := History();
    assert LiveChronological(h);
    ChronologicalAsOf(h, asOf);
    assert QualifiesAt(asOf)(h[3]);
  }

  /** Without an instant the root marker answers, not the newest version 1.2. */
  lemma HistoryWithoutInstant(versionableNode: Node)
    ensures GetRootVersion(versionableNode, History()) == Some(History()[0])
    ensures GetRootVersion(versionableNode, History()) != Some(History()[|History()| - 1])
  {
  }
}
