/** Version resolution: finding the versionable variant of a document handle, reading its
    linear version history, and choosing the version that was in effect at a given instant. */
module JcrVersionUtils {
  import opened Wrappers
  import opened Seqs
  import opened Jcr

  // ---------------------------------------------------------------------------
  // The versionable node of a document handle
  // ---------------------------------------------------------------------------

  predicate IsUnpublishedVariant(n: Node) {
    NT_PUBLISHABLE in n.types && HIPPOSTD_STATE in n.props && n.props[HIPPOSTD_STATE] == UNPUBLISHED
  }

  /** A handle child the scan steps over: a null, a node that is not publishable, or a
      publishable node whose state is readable and is not "unpublished". */
  predicate PassedOver(variant: Option<Node>) {
    || variant.None?
    || NT_PUBLISHABLE !in variant.value.types
    || (HIPPOSTD_STATE in variant.value.props && variant.value.props[HIPPOSTD_STATE] != UNPUBLISHED)
  }

  /** A handle child at which the scan ends, by answering or by failing to read the state. */
  predicate EndsScan(variant: Option<Node>) {
    !PassedOver(variant)
  }

  /** The loop over a handle's same-named children: the first publishable child in state
      "unpublished" wins; a publishable child without a state property makes `getProperty`
      throw before any later child is looked at. */
  function FindUnpublishedVariant(variants: seq<Option<Node>>): (r: Result<Option<Node>, Error>)
    ensures var k := FirstWhere(variants, EndsScan);
      && (k == |variants| ==> r == Success(None))
      && (k < |variants| && IsUnpublishedVariant(variants[k].value) ==> r == Success(variants[k]))
      && (k < |variants| && !IsUnpublishedVariant(variants[k].value) ==> r == Failure(PathNotFound(HIPPOSTD_STATE)))
    ensures r.Success? && r.value.Some? ==> Some(r.value.value) in variants && IsUnpublishedVariant(r.value.value)
    ensures r == Success(None) <==> forall i :: 0 <= i < |variants| ==> PassedOver(variants[i])
  {
    if variants == [] then Success(None)
    else
      match variants[0]
      case None => FindUnpublishedVariant(variants[1..])
      case Some(variant) =>
        if NT_PUBLISHABLE !in variant.types then FindUnpublishedVariant(variants[1..])
        else
          var state :- PropertyValue(variant, HIPPOSTD_STATE);
          if state == UNPUBLISHED then Success(Some(variant)) else FindUnpublishedVariant(variants[1..])
  }

  /** `getVersionableNode`: a node that is not a handle stands for itself when it is
      versionable and for nothing otherwise; for a handle, the unpublished variant among the
      children the store lists for the handle's own name. */
  function GetVersionableNode(handleNode: Node, matches: (string, NameFilter) -> bool): (r: Result<Option<Node>, Error>)
    ensures NT_HANDLE !in handleNode.types ==>
      && r.Success?
      && (r.value.Some? <==> MIX_VERSIONABLE in handleNode.types)
      && (r.value.Some? ==> r.value.value == handleNode)
    ensures NT_HANDLE in handleNode.types ==>
      r == FindUnpublishedVariant(StoreChildren(handleNode, NamePattern(handleNode.name), matches))
  {
    if NT_HANDLE !in handleNode.types then
      if MIX_VERSIONABLE in handleNode.types then Success(Some(handleNode)) else Success(None)
    else
      FindUnpublishedVariant(StoreChildren(handleNode, NamePattern(handleNode.name), matches))
  }

  /** The store lists, for a handle's own name used as a pattern, only children of that very
      name. A JCR name contains neither `*` nor `|`, so this holds for the store's wildcard
      matcher even though other patterns match more widely. */
  ghost predicate MatchesOnlyItself(matches: (string, NameFilter) -> bool, name: string) {
    forall childName: string :: matches(childName, NamePattern(name)) ==> childName == name
  }

  /** The versionable node found for a handle is one of the handle's children, carries the
      handle's name, and is an unpublished publishable variant. */
  lemma VersionableVariantOfHandle(handleNode: Node, matches: (string, NameFilter) -> bool)
    requires NT_HANDLE in handleNode.types
    requires MatchesOnlyItself(matches, handleNode.name)
    ensures var r := GetVersionableNode(handleNode, matches);
      r.Success? && r.value.Some? ==>
        && Some(r.value.value) in handleNode.children
        && r.value.value.name == handleNode.name
        && IsUnpublishedVariant(r.value.value)
  {
    var variants := StoreChildren(handleNode, NamePattern(handleNode.name), matches);
    var r := GetVersionableNode(handleNode, matches);
    if r.Success? && r.value.Some? {
      var i :| 0 <= i < |variants| && variants[i] == Some(r.value.value);
      assert matches(r.value.value.name, NamePattern(handleNode.name));
    }
  }

  // ---------------------------------------------------------------------------
  // The root version and the live-snapshot test
  // ---------------------------------------------------------------------------

  predicate IsRootVersion(version: Version) {
    version.name == ROOT_VERSION_NAME
  }

  /** `getRootVersion`: the first version named jcr:rootVersion. The versionable node does not
      take part in the choice. */
  function GetRootVersion(versionableNode: Node, linearVersions: seq<Version>): (r: Option<Version>)
    ensures var k := FirstWhere(linearVersions, IsRootVersion);
      r == if k < |linearVersions| then Some(linearVersions[k]) else None
    ensures r.Some? ==> r.value in linearVersions && r.value.name == ROOT_VERSION_NAME
    ensures r.None? <==> forall i :: 0 <= i < |linearVersions| ==> linearVersions[i].name != ROOT_VERSION_NAME
  {
    if linearVersions == [] then None
    else if IsRootVersion(linearVersions[0]) then Some(linearVersions[0])
    else GetRootVersion(versionableNode, linearVersions[1..])
  }

  /** `hasLiveFrozenNode`: the version's frozen node exists and its state summary reads "live". */
  function HasLiveFrozenNode(version: Version): (live: bool)
    ensures live <==>
      && version.frozenNode.Some?
      && HIPPOSTD_STATESUMMARY in version.frozenNode.value.props
      && version.frozenNode.value.props[HIPPOSTD_STATESUMMARY] == LIVE
  {
    match version.frozenNode
    case None => false
    case Some(frozenNode) =>
      if HIPPOSTD_STATESUMMARY in frozenNode.props then
        GetStringProperty(frozenNode, HIPPOSTD_STATESUMMARY, None) == Some(LIVE)
      else
        false
  }

  // ---------------------------------------------------------------------------
  // The version in effect at an instant
  // ---------------------------------------------------------------------------

  /** A live version created no later than `asOf`: a candidate answer. */
  function QualifiesAt(asOf: int): Version -> bool {
    (v: Version) => HasLiveFrozenNode(v) && v.created <= asOf
  }

  /** A live version created after `asOf`: where the scan stops. */
  function NewerLiveAt(asOf: int): Version -> bool {
    (v: Version) => HasLiveFrozenNode(v) && v.created > asOf
  }

  /** Where the scan for `asOf` stops: the first live version newer than `asOf`, or the end. */
  function ScanEnd(linearVersions: seq<Version>, asOf: int): (k: nat)
    ensures k <= |linearVersions|
  {
    FirstWhere(linearVersions, NewerLiveAt(asOf))
  }

  /** The version in effect at `asOf`, as a position: the last candidate before the scan's end. */
  function AsOfIndex(linearVersions: seq<Version>, asOf: int): (r: Option<nat>)
    ensures r.Some? ==> r.value < |linearVersions|
    ensures r.Some? ==> HasLiveFrozenNode(linearVersions[r.value]) && linearVersions[r.value].created <= asOf
  {
    LastWhereBefore(linearVersions, QualifiesAt(asOf), ScanEnd(linearVersions, asOf))
  }

  /** `getVersionAsOf`. Without an instant it answers the root version. With one it walks the
      history once (see `ScanAsOf`). */
  method GetVersionAsOf(versionableNode: Node, linearVersions: seq<Version>, asOf: Option<int>)
    returns (asOfVersion: Option<Version>)
    ensures asOf.None? ==> asOfVersion == GetRootVersion(versionableNode, linearVersions)
    ensures asOf.Some? ==> asOfVersion == At(linearVersions, AsOfIndex(linearVersions, asOf.value))
    ensures asOf.Some? && asOfVersion.Some? ==>
      && asOfVersion.value in linearVersions
      && HasLiveFrozenNode(asOfVersion.value)
      && asOfVersion.value.created <= asOf.value
  {
    if asOf.None? {
      asOfVersion := GetRootVersion(versionableNode, linearVersions);
    } else {
      asOfVersion := ScanAsOf(linearVersions, asOf.value);
    }
  }

  /** The loop of `getVersionAsOf` for a given instant: versions that are not live snapshots are
      ignored, the last live version not newer than `asOf` is remembered, and the walk stops at
      the first live version that is newer. */
  method ScanAsOf(linearVersions: seq<Version>, asOf: int) returns (asOfVersion: Option<Version>)
    ensures asOfVersion == At(linearVersions, AsOfIndex(linearVersions, asOf))
  {
    asOfVersion := None;
    var i := 0;
    while i < |linearVersions|
      invariant 0 <= i <= |linearVersions|
      invariant forall j :: 0 <= j < i ==> !NewerLiveAt(asOf)(linearVersions[j])
      invariant asOfVersion == At(linearVersions, LastWhereBefore(linearVersions, QualifiesAt(asOf), i))
    {
      var version := linearVersions[i];
      if HasLiveFrozenNode(version) {
        if version.created <= asOf {
          assert LastWhereBefore(linearVersions, QualifiesAt(asOf), i + 1) == Some(i);
          asOfVersion := Some(version);
        } else {
          assert NewerLiveAt(asOf)(version);
          break;
        }
      } else {
        assert LastWhereBefore(linearVersions, QualifiesAt(asOf), i + 1) == LastWhereBefore(linearVersions, QualifiesAt(asOf), i);
      }
      i := i + 1;
    }
    assert ScanEnd(linearVersions, asOf) == i;
  }

  /** Live versions appear in the history in chronological order. */
  predicate LiveChronological(linearVersions: seq<Version>) {
    forall i, j :: 0 <= i < j < |linearVersions| && HasLiveFrozenNode(linearVersions[i]) && HasLiveFrozenNode(linearVersions[j]) ==>
      linearVersions[i].created <= linearVersions[j].created
  }

  /** In a chronological history the scan's early stop loses nothing: the answer is the latest
      live version not newer than `asOf` in the whole history, and there is none exactly when
      every live version is newer than `asOf`. */
  lemma ChronologicalAsOf(linearVersions: seq<Version>, asOf: int)
    requires LiveChronological(linearVersions)
    ensures AsOfIndex(linearVersions, asOf) == LastWhereBefore(linearVersions, QualifiesAt(asOf), |linearVersions|)
    ensures AsOfIndex(linearVersions, asOf).None? <==>
      forall i :: 0 <= i < |linearVersions| && HasLiveFrozenNode(linearVersions[i]) ==> linearVersions[i].created > asOf
    ensures AsOfIndex(linearVersions, asOf).Some? ==>
      forall j :: AsOfIndex(linearVersions, asOf).value < j < |linearVersions| && HasLiveFrozenNode(linearVersions[j]) ==>
        linearVersions[j].created > asOf
  {
    var k := ScanEnd(linearVersions, asOf);
    NothingQualifiesAfterScanEnd(linearVersions, asOf);
    LastWhereBeforeStable(linearVersions, QualifiesAt(asOf), k, |linearVersions|);
  }

  /** In a chronological history no version from the scan's end on is a candidate: every live
      one there is at least as new as the live version that stopped the scan. */
  lemma NothingQualifiesAfterScanEnd(linearVersions: seq<Version>, asOf: int)
    requires LiveChronological(linearVersions)
    ensures forall j :: ScanEnd(linearVersions, asOf) <= j < |linearVersions| ==> !QualifiesAt(asOf)(linearVersions[j])
  {
    var k := ScanEnd(linearVersions, asOf);
    forall j | k <= j < |linearVersions|
      ensures !QualifiesAt(asOf)(linearVersions[j])
    {
      if j > k && HasLiveFrozenNode(linearVersions[j]) {
        assert linearVersions[k].created <= linearVersions[j].created;
      }
    }
  }

  /** Only liveness and, for live versions, the creation instant decide the answer: histories
      that agree on these at every position resolve to the same position. */
  lemma SameVerdictsSameAnswer(vs: seq<Version>, ws: seq<Version>, asOf: int)
    requires |vs| == |ws|
    requires forall i :: 0 <= i < |vs| ==> HasLiveFrozenNode(vs[i]) == HasLiveFrozenNode(ws[i])
    requires forall i :: 0 <= i < |vs| && HasLiveFrozenNode(vs[i]) ==> vs[i].created == ws[i].created
    ensures AsOfIndex(vs, asOf) == AsOfIndex(ws, asOf)
  {
    FirstWhereAgrees(vs, NewerLiveAt(asOf), ws, NewerLiveAt(asOf));
    LastWhereBeforeAgrees(vs, QualifiesAt(asOf), ws, QualifiesAt(asOf), ScanEnd(vs, asOf));
  }

  /** A version that is not a live snapshot never stops the scan and is never chosen, whatever
      its timestamp: moving it to any other instant leaves the answer unchanged. */
  lemma NonLiveTimestampIrrelevant(linearVersions: seq<Version>, i: nat, created: int, asOf: int)
    requires i < |linearVersions|
    requires !HasLiveFrozenNode(linearVersions[i])
    ensures AsOfIndex(linearVersions[i := linearVersions[i].(created := created)], asOf) == AsOfIndex(linearVersions, asOf)
    ensures AsOfIndex(linearVersions, asOf) != Some(i)
  {
    var retimed := linearVersions[i := linearVersions[i].(created := created)];
    assert forall j :: 0 <= j < |retimed| ==> HasLiveFrozenNode(retimed[j]) == HasLiveFrozenNode(linearVersions[j]);
    SameVerdictsSameAnswer(retimed, linearVersions, asOf);
  }

  /** A scan that stops inside `s` finds the same position in any extension of `s`. */
  lemma {:induction false} FirstWhereOfExtension<T>(s: seq<T>, t: seq<T>, p: T -> bool)
    requires FirstWhere(s, p) < |s|
    ensures FirstWhere(s + t, p) == FirstWhere(s, p)
  {
    if !p(s[0]) {
      assert (s + t)[1..] == s[1..] + t;
      FirstWhereOfExtension(s[1..], t, p);
    }
  }

  /** A backward search within `s` ignores whatever follows `s`. */
  lemma {:induction false} LastWhereBeforeOfExtension<T>(s: seq<T>, t: seq<T>, p: T -> bool, k: nat)
    requires k <= |s|
    ensures LastWhereBefore(s + t, p, k) == LastWhereBefore(s, p, k)
    decreases k
  {
    if k > 0 {
      assert (s + t)[k - 1] == s[k - 1];
      LastWhereBeforeOfExtension(s, t, p, k - 1);
    }
  }

  /** The scan stops at the first live version newer than `asOf`: versions recorded after it
      never change the answer. */
  lemma ScanStopsAtNewerLive(linearVersions: seq<Version>, later: seq<Version>, asOf: int)
    requires ScanEnd(linearVersions, asOf) < |linearVersions|
    ensures AsOfIndex(linearVersions + later, asOf) == AsOfIndex(linearVersions, asOf)
  {
    FirstWhereOfExtension(linearVersions, later, NewerLiveAt(asOf));
    LastWhereBeforeOfExtension(linearVersions, later, QualifiesAt(asOf), ScanEnd(linearVersions, asOf));
  }

  // ---------------------------------------------------------------------------
  // The linear history
  // ---------------------------------------------------------------------------

  /** `getAllLinearVersions`: the store's versions in iteration order when the history exists
      and its iterator reports a positive or unknown (-1) size; the empty list otherwise. It
      never answers null. */
  function GetAllLinearVersions(history: Option<VersionIterator>): (versions: seq<Version>)
    ensures history.None? ==> versions == []
    ensures history.Some? && history.value.size == 0 ==> versions == []
    ensures history.Some? && history.value.size == -1 ==> versions == history.value.versions
    ensures history.Some? && history.value.size > 0 ==> versions == history.value.versions
    ensures history.Some? && history.value.size < -1 ==> versions == []
    ensures versions == [] || (history.Some? && versions == history.value.versions)
  {
    match history
    case None => []
    case Some(it) => if it.size > 0 || it.size == -1 then it.versions else []
  }

  /** With an iterator whose size is truthful, the size check never drops a version: the answer
      is the whole history. */
  lemma LinearVersionsComplete(it: VersionIterator)
    requires TruthfulSize(it)
    ensures GetAllLinearVersions(Some(it)) == it.versions
  {
  }
}
