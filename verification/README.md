# hst-content-version-utility in Dafny

This project models the two pieces of decision logic in the HST content version utility.

- **Version resolution** (`JcrVersionUtils`). It finds the versionable variant of a document handle and reads the handle's linear version history. It then picks the version in effect at an instant. Only versions whose frozen node has the state summary "live" are considered. The scan stops at the first live version newer than the instant.
- **The frozen-node decorator** (`FrozenNodeUtils`, `NonFrozenPretenderNode`). It wraps an immutable `nt:frozenNode` so that generic node-reading code sees a node of its real type:
  - type queries answer with `jcr:frozenPrimaryType`;
  - child access wraps the children recursively;
  - the HippoNode extras give fixed answers;
  - every other call is answered by the frozen node.

Repository nodes are an immutable tree datatype (`Jcr.Node`). Versions are records with an integer creation instant. Store exceptions are `Result` failures. The Java dynamic proxy becomes an explicit datatype (`NonFrozenPretender.PretenderNode`) plus a dispatch function, `FrozenNodeUtils.Intercept`. That function routes each call by the interface that declares it: Node, HippoNode or NonFrozenPretenderNode.

Files:
- `wrappers.dfy`: Option and Result.
- `seqs.dfy`: the two scans everything is built from. "First element satisfying p" and "last element satisfying p before position k".
- `jcr.dfy`: nodes, versions, the version iterator, errors, and the constant names. It also holds the answers a plain node gives (`Invoke`).
- `jcr_version_utils.dfy`: the resolver and its properties.
- `non_frozen_pretender.dfy`: the decorated-node shape and its three accessors.
- `frozen_node_utils.dfy`: wrapping, the overridden node calls, dispatch and the decorator's properties.
- `scenarios.dfy`: the fixture of `FrozenNodeUtilsTest` and a four-version history.

`getVersionAsOf` is a method. Its loop, split out as `ScanAsOf`, mirrors the Java `for` loop with its `break`. The contract is an independent definition: take the last live version not newer than `asOf` among the versions before the first live version newer than `asOf`. The lemmas then show two things. On a history whose live versions are chronological, this is the latest live version not newer than `asOf`. And versions that are not live never influence the answer.

## Code and documentation disagree

The Javadoc of `getVersionAsOf` (JcrVersionUtils.java lines 110 and 115) says a null `asOf` yields the latest version. The code (lines 122-123) returns the `jcr:rootVersion` entry instead. The model follows the code. `Scenarios.HistoryWithoutInstant` shows a history where the two answers differ.

## Model

| member | source | states |
|---|---|---|
| JcrVersionUtils.GetVersionableNode | src/main/java/org/onehippo/forge/hst/version/util/JcrVersionUtils.java:56-84 | A node that is not a `hippo:handle` yields itself exactly when it is `mix:versionable`, and nothing otherwise. A handle yields the variant scan over the children the store lists for the handle's own name. |
| JcrVersionUtils.FindUnpublishedVariant | src/main/java/org/onehippo/forge/hst/version/util/JcrVersionUtils.java:65-83 | The answer is decided by the first child that is not skipped. Skipped children are nulls, non-publishable nodes, and publishable nodes whose readable state is not "unpublished". That first child is the answer when it is in state "unpublished". When it has no `hippostd:state`, the call fails with PathNotFound. When no child qualifies, the answer is null, and only then. A found node is one of the children and is an unpublished publishable variant. |
| JcrVersionUtils.VersionableVariantOfHandle | src/main/java/org/onehippo/forge/hst/version/util/JcrVersionUtils.java:70-79 | Assume only that the store lists nothing but same-named children for the handle's own name used as a pattern. A JCR name contains neither `*` nor `\|`, so this holds for the store's wildcard matcher. The versionable node found for a handle is then a child of the handle, carries the handle's name, and is publishable in state "unpublished". |
| JcrVersionUtils.GetRootVersion | src/main/java/org/onehippo/forge/hst/version/util/JcrVersionUtils.java:93-105 | The answer is the first version named `jcr:rootVersion`, or null exactly when no version has that name. The versionable-node argument plays no part. |
| JcrVersionUtils.HasLiveFrozenNode | src/main/java/org/onehippo/forge/hst/version/util/JcrVersionUtils.java:182-195 | True iff the frozen node exists, has `hippostd:stateSummary`, and that value is "live". |
| JcrVersionUtils.AsOfIndex | src/main/java/org/onehippo/forge/hst/version/util/JcrVersionUtils.java:125-139 | The position in effect at `asOf`: a live version created no later than `asOf`. |
| JcrVersionUtils.GetVersionAsOf | src/main/java/org/onehippo/forge/hst/version/util/JcrVersionUtils.java:118-140 | With no `asOf` the answer is `GetRootVersion`, not the newest version. With `asOf`, the answer is the last live version with `created <= asOf` before the first live version with `created > asOf`. A non-null answer is in the list, is live, and is not newer than `asOf`. |
| JcrVersionUtils.ScanAsOf | src/main/java/org/onehippo/forge/hst/version/util/JcrVersionUtils.java:125-136 | The forward scan with its early `break` computes the answer `AsOfIndex` defines. Its loop invariants are that no live version newer than `asOf` has been passed, and that the remembered version is the last candidate seen so far. |
| JcrVersionUtils.ChronologicalAsOf | src/main/java/org/onehippo/forge/hst/version/util/JcrVersionUtils.java:125-139 | Suppose live versions are in non-decreasing order of creation. Then the early stop loses nothing: the answer is the latest live version not newer than `asOf` in the whole history. There is no answer exactly when every live version is newer. |
| JcrVersionUtils.SameVerdictsSameAnswer | src/main/java/org/onehippo/forge/hst/version/util/JcrVersionUtils.java:125-136 | Liveness, and the creation instant of live versions, are all that decide the answer. |
| JcrVersionUtils.NonLiveTimestampIrrelevant | src/main/java/org/onehippo/forge/hst/version/util/JcrVersionUtils.java:126 | A version that is not live is never returned and never stops the scan. Moving it to any instant leaves the answer unchanged. |
| JcrVersionUtils.ScanStopsAtNewerLive | src/main/java/org/onehippo/forge/hst/version/util/JcrVersionUtils.java:130-134 | Once a live version newer than `asOf` has been met, versions after it never change the answer. |
| JcrVersionUtils.GetAllLinearVersions | src/main/java/org/onehippo/forge/hst/version/util/JcrVersionUtils.java:148-174 | The result is never null. It is empty without a history or with a reported size of 0. With a positive size or an unknown size (-1) it holds exactly the iterated versions, in order. With any other negative size it is empty. |
| JcrVersionUtils.LinearVersionsComplete | src/main/java/org/onehippo/forge/hst/version/util/JcrVersionUtils.java:155-166 | When the iterator's size is truthful (-1 or the real count), the size check drops nothing: the result is the whole history. |
| FrozenNodeUtils.GetNonFrozenPretenderNode | src/main/java/org/onehippo/forge/hst/version/util/FrozenNodeUtils.java:80-173 | It fails with IllegalArgument exactly when the node is not `nt:frozenNode`. Otherwise the decorator wraps that very node with the given `created` and `asOf`. It is the HippoNode variant exactly when the node offers HippoNode capabilities. |
| FrozenNodeUtils.PretenderRoundTrip | src/main/java/org/onehippo/forge/hst/version/util/NonFrozenPretenderNode.java:26-45 | `getFrozenNode`, `getCreated` and `getAsOf` give back exactly the wrap-time arguments. Every well-formed decorator is the wrap of its own accessors' values. |
| FrozenNodeUtils.PrimaryNodeType | src/main/java/org/onehippo/forge/hst/version/util/FrozenNodeUtils.java:102-105 | The type object handed out keeps the frozen node's own type underneath. Its name is the recorded real type, and it can be read exactly when `jcr:frozenPrimaryType` is present. |
| FrozenNodeUtils.PrimaryTypeName | src/main/java/org/onehippo/forge/hst/version/util/FrozenNodeUtils.java:88-105 | The primary type's name is the frozen node's `jcr:frozenPrimaryType` value. `NodeType.getName()` declares no checked exception. So when the property is missing, the PathNotFound reaches the caller only wrapped as an undeclared throwable. |
| FrozenNodeUtils.ProxyIsNodeType | src/main/java/org/onehippo/forge/hst/version/util/FrozenNodeUtils.java:175-195 | A type is accepted iff the frozen node is of that type, or it equals `jcr:frozenPrimaryType`, or it is an attached mixin's name. The call fails only when the frozen node is not of that type and the property is missing. |
| FrozenNodeUtils.MixinNeverFails | src/main/java/org/onehippo/forge/hst/version/util/FrozenNodeUtils.java:175-178 | Assume the store's attached mixins are all accepted by `isNodeType`, as in JCR. Then asking about an attached mixin succeeds at the first test and never reaches the property read. |
| FrozenNodeUtils.MixinNamed | src/main/java/org/onehippo/forge/hst/version/util/FrozenNodeUtils.java:186-192 | The mixin loop finds the type iff it is among the attached mixin names. |
| FrozenNodeUtils.ProxyGetNode | src/main/java/org/onehippo/forge/hst/version/util/FrozenNodeUtils.java:197-201 | A missing path fails as the frozen node's own lookup fails. Otherwise the result wraps the very node that lookup returns, with the same `created` and `asOf`. It fails iff that node is not frozen. |
| FrozenNodeUtils.PretendAll | src/main/java/org/onehippo/forge/hst/version/util/FrozenNodeUtils.java:207-214 | Nulls are skipped. The result wraps the non-null children one for one, in order, with unchanged instants. The call succeeds iff every non-null child is frozen. |
| FrozenNodeUtils.ProxyGetNodes | src/main/java/org/onehippo/forge/hst/version/util/FrozenNodeUtils.java:203-217 | Each non-null child of the frozen node is wrapped, in stored order. The length equals the number of non-null children. |
| FrozenNodeUtils.ProxyGetNodesByPattern | src/main/java/org/onehippo/forge/hst/version/util/FrozenNodeUtils.java:219-233 | The same holds over the children the store lists for the pattern. Each result wraps a child of the frozen node whose name the store matched. |
| FrozenNodeUtils.ProxyGetNodesByGlobs | src/main/java/org/onehippo/forge/hst/version/util/FrozenNodeUtils.java:235-249 | The same holds over the children the store lists for the glob list. |
| FrozenNodeUtils.LocalizedNames | src/main/java/org/onehippo/forge/hst/version/util/FrozenNodeUtils.java:134-138 | The map has exactly two keys, the unlocalized key and the default locale. Both map to the frozen node's plain name. |
| FrozenNodeUtils.HippoCallAnswers | src/main/java/org/onehippo/forge/hst/version/util/FrozenNodeUtils.java:131-147 | On the HippoNode variant, the HippoNode calls give these answers: the plain name for every locale; the frozen node itself as canonical node; no pending changes; not virtual; a no-op recompute. On the plain variant these calls do not exist. |
| FrozenNodeUtils.Intercept | src/main/java/org/onehippo/forge/hst/version/util/FrozenNodeUtils.java:107-160 | `getPrimaryNodeType` answers the real-type object. `isNodeType` goes to `ProxyIsNodeType` and `getNode` to `ProxyGetNode`, both on the frozen node with its instants. `getNodes` with no argument, with a pattern, or with a glob array goes to the matching overload. A failure there is the call's failure. Every other node call gets the frozen node's own answer. A HippoNode call fails exactly on the plain variant. `getFrozenNode`, `getCreated` and `getAsOf` answer the decorator's own values. |
| FrozenNodeUtils.PassThrough | src/main/java/org/onehippo/forge/hst/version/util/FrozenNodeUtils.java:158 | Every node call other than `getPrimaryNodeType`, `isNodeType`, `getNode` and `getNodes` gets exactly the frozen node's answer. This covers property reads, `hasNode`, `getName` and the mixin list. |
| FrozenNodeUtils.PretendsRealType | src/main/java/org/onehippo/forge/hst/version/util/FrozenNodeUtils.java:115-119 | A decorated frozen node reports its recorded real type as primary type name. It accepts `nt:frozenNode`, the real type, and every attached mixin. |
| FrozenNodeUtils.WalkAgreesWithPath | src/main/java/org/onehippo/forge/hst/version/util/FrozenNodeUtils.java:197-201 | Walking a decorated tree one `getNode` at a time reaches the decorator of the very frozen node that the frozen tree's own path lookup reaches. `created` and `asOf` are unchanged. |
| Scenarios.PretendNotFrozenScenario | src/test/java/org/onehippo/forge/hst/version/util/FrozenNodeUtilsTest.java:60-70 | In the test fixture the frozen node alone is not of its real type, but the decorator is. The decorator hands back the node and instants it was built from, and names `ns1:service` as its primary type. |
| Scenarios.ReadThroughScenario | src/test/java/org/onehippo/forge/hst/version/util/FrozenNodeUtilsTest.java:72-75 | In the test fixture, the decorator's property reads and `hasNode` give the frozen node's values. |
| Scenarios.PretendNotFrozenChildScenario | src/test/java/org/onehippo/forge/hst/version/util/FrozenNodeUtilsTest.java:76-84 | The fixture's decorated child is the decorator of the frozen child itself. It is of both `nt:frozenNode` and `hippostd:html`, and its content property reads through. |
| Scenarios.NotFrozenIsRefused | src/main/java/org/onehippo/forge/hst/version/util/FrozenNodeUtils.java:82-84 | Decorating a node that is not frozen yields no decorator. |
| Scenarios.HistoryBeforeFirstLive | src/main/java/org/onehippo/forge/hst/version/util/JcrVersionUtils.java:120-139 | Every instant before the first live version (10) resolves to nothing. |
| Scenarios.HistoryBetweenLive | src/main/java/org/onehippo/forge/hst/version/util/JcrVersionUtils.java:125-135 | At every instant from live version 1.0 (10) up to, but not including, live version 1.2 (30), version 1.0 answers. The non-live 1.1 at 20 is skipped. |
| Scenarios.HistoryAfterLastLive | src/main/java/org/onehippo/forge/hst/version/util/JcrVersionUtils.java:125-136 | From the last live version's instant on, that version answers. |
| Scenarios.HistoryWithoutInstant | src/main/java/org/onehippo/forge/hst/version/util/JcrVersionUtils.java:122-123 | Without an instant the root marker answers, not the newest version. |

## Left out

- The orchestration in `HippoBeanVersionUtils.java` is not modelled. That covers the preview-session login and logout, the request-context and service-registry lookups, bean instantiation and injection, exception logging, and skipping a resolved root version. It is I/O and plumbing around the two modelled pieces. No modelled code falls back to the live document.
- The commons-proxy machinery (`ProxyFactory`, `Interceptor`, reflective `Method` dispatch) is replaced by the `PretenderNode` datatype and the `Intercept` function.
- The JCR node-type hierarchy behind `isNodeType` is a given set of accepted type names per node (`Node.types`).
- Name-pattern and glob matching inside the store's `getNodes(pattern)` and `getNodes(globs)` is a given function `matches`. The handle scan asks the store for the handle's own name through that same function.
- `getAllLinearVersions` does not model the session, workspace and `VersionManager` lookup. The store's history is an input: absent, or an iterator with its reported size and its versions.
- `Calendar` is replaced by integer instants and `compareTo` by integer comparison. `Locale` is an abstract key, and the platform default locale is a parameter.
- Store failures other than a missing property or child are not modelled. The model's store never fails otherwise; the Java code would propagate a `RepositoryException` unchanged.
- Relative paths are sequences of name segments. `.`, `..` and same-name-sibling indexes are not interpreted; a segment selects the first child of that name.
- Of the `NodeType` object returned for `getPrimaryNodeType`, only `getName` is modelled. Its other methods pass through to the frozen node's own type.
- Node calls outside `NodeCall` (`getPath`, `getSession`, writes, ordering) are not listed. They pass through exactly as the listed non-intercepted calls do.
- `RecomputeDerivedData` answers `NoValue`, as the interceptor returns null. How a null converts to the interface's declared return type is Java-runtime behaviour and is not part of this model.
- GetNonFrozenPretenderNode: `created` is an integer, so the null `created` that Java would accept and hand back unchanged is not modelled.
- The values of the Hippo constants (`hippo:handle`, `hippostd:publishable`, `hippostd:state`, `unpublished`, `hippostd:stateSummary`) come from the Hippo repository API classes, which are not part of this model.
- Lifetime and session validity of decorated nodes are not modelled. The model's nodes are immutable values, so the accessors cannot have side effects.
