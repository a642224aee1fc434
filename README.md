# Local component metadata and artifact collections

This project models two parts of Gradle's dependency management.

**The metadata of a local (project) component.** This is the metadata Gradle builds for a project that other projects depend on. It holds three things:

- an insertion-ordered registry of configurations keyed by name;
- a multimap from each configuration name to the variants that configuration owns;
- lazily computed values: each configuration's dependencies, excludes and file dependencies aggregated over its hierarchy, its realised artifacts, and the component's "variants for graph traversal".

Each configuration can hold a deferred declaration source, which is applied once and then dropped. Its artifacts are finalised on first use. A configuration's realised artifacts are its own declared artifacts, bound to the component, followed by the realised artifacts of every other member of its hierarchy, without duplicates. `copy` re-registers every configuration under a new component id. It pushes every artifact through a caller-supplied transform and memoises the results, so each distinct artifact is transformed once.

**An artifact collection.** This is a memoised front end over an artifact selection. The first read visits the selection once and keeps the set of resolved artifacts and the set of failures. In strict mode, any failure turns the result into a failure. Every accessor forces that single resolution, but `visitArtifacts` visits the selection directly each time.

Files:

- `wrappers.dfy` (`Wrappers`): `Option` and `Result`.
- `component_model.dfy` (`ComponentModel`): the configuration and variant values, and the specification functions for realisation, aggregation, artifact inheritance, graph-traversal variants, lookup and copying. It also holds the lemmas about them.
- `local_component.dfy` (`LocalComponent`): the class `Component`. Its fields are the registry (`configs` and `order`), the variant multimap (`variants`, as entries in insertion order) and the traversal cache. Its methods update these in place and are proved against the functions in `ComponentModel`.
- `artifact_collection.dfy` (`ArtifactCollections`): the class `ArtifactCollection`. Its memo cell moves from `Unresolved` to `Resolved` or `Failed`. A ghost counter `passes` records how many times the selection was visited for the memo.

## Model

| member | source | states |
|---|---|---|
| LocalComponent.Component.constructor | subprojects/dependency-management/src/main/java/org/gradle/internal/component/local/model/DefaultLocalComponentMetadata.java:76-84 | A new component has no configurations, no variants and no cached traversal variants. |
| LocalComponent.Component.AddConfiguration | subprojects/dependency-management/src/main/java/org/gradle/internal/component/local/model/DefaultLocalComponentMetadata.java:160-165 | Requires the name to be in its own hierarchy. Stores a fresh configuration under the name, replacing any earlier one. A new name goes at the end of the insertion order; an existing name keeps its position. |
| LocalComponent.Component.GetConfigurationNames | subprojects/dependency-management/src/main/java/org/gradle/internal/component/local/model/DefaultLocalComponentMetadata.java:215-217 | Returns exactly the registered names, in insertion order and without duplicates. |
| LocalComponent.Component.SetDeclarationSource | subprojects/dependency-management/src/main/java/org/gradle/internal/component/local/model/DefaultLocalComponentMetadata.java:168-172 | Attaches the backing declarations to the named configuration and changes nothing else. |
| LocalComponent.Component.AddDependency | subprojects/dependency-management/src/main/java/org/gradle/internal/component/local/model/DefaultLocalComponentMetadata.java:382-384 | Appends the dependency to that configuration's defined dependencies and changes nothing else. |
| LocalComponent.Component.AddExclude | subprojects/dependency-management/src/main/java/org/gradle/internal/component/local/model/DefaultLocalComponentMetadata.java:387-389 | Appends the exclude to that configuration's defined excludes and changes nothing else. |
| LocalComponent.Component.AddFiles | subprojects/dependency-management/src/main/java/org/gradle/internal/component/local/model/DefaultLocalComponentMetadata.java:392-394 | Appends the file dependency to that configuration's defined files and changes nothing else. |
| LocalComponent.Component.AddArtifacts | subprojects/dependency-management/src/main/java/org/gradle/internal/component/local/model/DefaultLocalComponentMetadata.java:532-534 | Appends to the declared artifacts while they are still pending. Once the artifacts are realised (the source list is null), it reports failure and changes nothing. |
| LocalComponent.Component.AddVariant | subprojects/dependency-management/src/main/java/org/gradle/internal/component/local/model/DefaultLocalComponentMetadata.java:576-578 | Appends one variant with pending artifacts to the multimap under the owning configuration's name. |
| LocalComponent.Component.GetVariants | subprojects/dependency-management/src/main/java/org/gradle/internal/component/local/model/DefaultLocalComponentMetadata.java:446-448 | Returns the variants held under the configuration's name, in insertion order (`OwnedVariants`). |
| ComponentModel.OwnedVariants | subprojects/dependency-management/src/main/java/org/gradle/internal/component/local/model/DefaultLocalComponentMetadata.java:446-448 | A variant is in the result if and only if the multimap holds it under that name. |
| LocalComponent.Component.RealizeDependenciesOf | subprojects/dependency-management/src/main/java/org/gradle/internal/component/local/model/DefaultLocalComponentMetadata.java:580-586 | Replaces the configuration by `RealizeDependencies` of it: the backing declarations are appended and the link is cleared. |
| ComponentModel.RealizeDependenciesIsOneShot | subprojects/dependency-management/src/main/java/org/gradle/internal/component/local/model/DefaultLocalComponentMetadata.java:580-586 | A second realisation changes nothing, because the backing link is gone. |
| LocalComponent.Component.CollectFromHierarchy | subprojects/dependency-management/src/main/java/org/gradle/internal/component/local/model/DefaultLocalComponentMetadata.java:468-473 | Over the registry in insertion order, realises the declarations of every configuration in the hierarchy. Returns the concatenation of the selected lists of exactly those configurations. |
| ComponentModel.GatherMembers | subprojects/dependency-management/src/main/java/org/gradle/internal/component/local/model/DefaultLocalComponentMetadata.java:468-473 | An element is gathered if and only if some hierarchy member in the registry contributes it. |
| ComponentModel.GatherFrame | subprojects/dependency-management/src/main/java/org/gradle/internal/component/local/model/DefaultLocalComponentMetadata.java:571-573 | Only hierarchy members matter: registries that agree on them gather the same list. |
| LocalComponent.Component.GetDependencies | subprojects/dependency-management/src/main/java/org/gradle/internal/component/local/model/DefaultLocalComponentMetadata.java:466-486 | Returns the cached list unchanged if there is one. Otherwise it realises the hierarchy, computes `AggregatedDependencies` and caches the result. |
| LocalComponent.Component.ForceEach | subprojects/dependency-management/src/main/java/org/gradle/internal/component/local/model/DefaultLocalComponentMetadata.java:478-481 | Its loop yields the forced form of each dependency in order (`ForceAll`). |
| ComponentModel.ForceAll | subprojects/dependency-management/src/main/java/org/gradle/internal/component/local/model/DefaultLocalComponentMetadata.java:478-481 | Same length, and each element is forced with its selector unchanged. |
| ComponentModel.AggregatedDependenciesForcedRule | subprojects/dependency-management/src/main/java/org/gradle/internal/component/local/model/DefaultLocalComponentMetadata.java:474-483 | If the category is the enforced platform, every gathered dependency is forced, position by position. Otherwise the gathered list is returned as is. |
| LocalComponent.Component.GetExcludes | subprojects/dependency-management/src/main/java/org/gradle/internal/component/local/model/DefaultLocalComponentMetadata.java:513-524 | Returns the cache, or realises the hierarchy, gathers the excludes in registry order and caches them. |
| LocalComponent.Component.GetFiles | subprojects/dependency-management/src/main/java/org/gradle/internal/component/local/model/DefaultLocalComponentMetadata.java:494-505 | Returns the cache, or realises the hierarchy, gathers the file dependencies de-duplicated in first-seen order and caches them. |
| ComponentModel.Dedup | subprojects/dependency-management/src/main/java/org/gradle/internal/component/local/model/DefaultLocalComponentMetadata.java:496-502 | The result has no duplicates, holds exactly the input's elements and is no longer than the input. |
| ComponentModel.DedupKeepsFirstOccurrenceOrder | subprojects/dependency-management/src/main/java/org/gradle/internal/component/local/model/DefaultLocalComponentMetadata.java:496-502 | Elements appear in the order of their first occurrence in the input. |
| LocalComponent.Component.GetVariantsForGraphTraversal | subprojects/dependency-management/src/main/java/org/gradle/internal/component/local/model/DefaultLocalComponentMetadata.java:223-240 | Computes the value on the first call and caches it. Later calls return the cache and change nothing. |
| ComponentModel.QualifyingNames | subprojects/dependency-management/src/main/java/org/gradle/internal/component/local/model/DefaultLocalComponentMetadata.java:226-233 | A name is kept if and only if it is registered and its configuration is consumable with non-empty attributes. Registry order is kept. |
| ComponentModel.VariantsForGraphTraversalCases | subprojects/dependency-management/src/main/java/org/gradle/internal/component/local/model/DefaultLocalComponentMetadata.java:234-238 | The value is `Absent` exactly when no configuration qualifies. Otherwise it is a non-empty list of exactly the qualifying configurations. |
| LocalComponent.Component.RealizeConfigArtifacts | subprojects/dependency-management/src/main/java/org/gradle/internal/component/local/model/DefaultLocalComponentMetadata.java:351-373 | Finalises the configuration's artifacts to `ExpectedArtifacts`: its own declarations bound to the component, then each other hierarchy member's realised artifacts, without duplicates. Each other member is prepared along the way, so the variants of every configuration it reaches (`ReachedBySlot`) are finalised and all other variants are unchanged. Only artifact slots and those variants change, and slots only coherently (`RealizedFrom`). |
| LocalComponent.Component.InheritArtifacts | subprojects/dependency-management/src/main/java/org/gradle/internal/component/local/model/DefaultLocalComponentMetadata.java:361-368 | Prepares every other hierarchy member and returns its artifacts, concatenated in hierarchy order (`InheritedArtifacts`). Preparing a member finalises its variants and those of everything it reaches (`ReachedVia`); no other variant changes. |
| LocalComponent.Component.BindEach | subprojects/dependency-management/src/main/java/org/gradle/internal/component/local/model/DefaultLocalComponentMetadata.java:357-360 | Binds every declared artifact to the component, in order (`BindAll`). |
| ComponentModel.ExpectedArtifactsStable | subprojects/dependency-management/src/main/java/org/gradle/internal/component/local/model/DefaultLocalComponentMetadata.java:351-373 | Finalising other configurations coherently never changes what a configuration will realise to. This is why realisation order does not matter. |
| ComponentModel.InheritedArtifactsStable | subprojects/dependency-management/src/main/java/org/gradle/internal/component/local/model/DefaultLocalComponentMetadata.java:361-368 | The same stability for the inherited part. |
| ComponentModel.RealizedFromTransitive | subprojects/dependency-management/src/main/java/org/gradle/internal/component/local/model/DefaultLocalComponentMetadata.java:351-373 | Two coherent finalisation steps compose into one. |
| ComponentModel.RealizedFromWellFormed | subprojects/dependency-management/src/main/java/org/gradle/internal/component/local/model/DefaultLocalComponentMetadata.java:351-373 | Finalising artifacts keeps every hierarchy registered and acyclic. |
| ComponentModel.RealizedSlotIsExpected | subprojects/dependency-management/src/main/java/org/gradle/internal/component/local/model/DefaultLocalComponentMetadata.java:546-548 | A finalised slot holds exactly the configuration's expected artifacts. |
| LocalComponent.Component.RealizeVariantArtifacts | subprojects/dependency-management/src/main/java/org/gradle/internal/component/local/model/DefaultLocalComponentMetadata.java:264-276 | Finalises one variant: declared artifacts are bound to the component, and an already realised variant is left alone. |
| ComponentModel.RealizeVariant | subprojects/dependency-management/src/main/java/org/gradle/internal/component/local/model/DefaultLocalComponentMetadata.java:264-276 | The result is realised. A realised variant is unchanged. A pending one gets its bound declarations. |
| LocalComponent.Component.PrepareToResolveArtifacts | subprojects/dependency-management/src/main/java/org/gradle/internal/component/local/model/DefaultLocalComponentMetadata.java:537-543 | Finalises the configuration's artifacts to `ExpectedArtifacts`, then finalises every variant it owns. When the slot was pending, the variants of every configuration reached through the hierarchy are finalised as well (`Reached`). All other variants are unchanged. |
| LocalComponent.Component.RealizeVariantsOf | subprojects/dependency-management/src/main/java/org/gradle/internal/component/local/model/DefaultLocalComponentMetadata.java:539-541 | Each variant owned by the configuration is finalised, and every other entry is unchanged. |
| ComponentModel.ReachedCoversHierarchy | subprojects/dependency-management/src/main/java/org/gradle/internal/component/local/model/DefaultLocalComponentMetadata.java:361-368 | Preparing a configuration with pending artifacts reaches every member of its hierarchy, so their variants are finalised too. Preparing a realised configuration reaches only itself. |
| ComponentModel.PreparingInheritorFinalisesParentVariant | subprojects/dependency-management/src/main/java/org/gradle/internal/component/local/model/DefaultLocalComponentMetadata.java:366 | With `impl` extending `base` and a pending variant owned by `base`, preparing `impl` finalises that variant to its bound artifact. |
| ComponentModel.ReachedStable | subprojects/dependency-management/src/main/java/org/gradle/internal/component/local/model/DefaultLocalComponentMetadata.java:537-543 | Finalising slots coherently only shrinks what a configuration reaches, and what it no longer reaches has already had its variants finalised. |
| ComponentModel.AbsorbedTransitive | subprojects/dependency-management/src/main/java/org/gradle/internal/component/local/model/DefaultLocalComponentMetadata.java:537-543 | Two preparation steps compose: everything finalised by either has had the variants it reaches finalised by one of them. |
| LocalComponent.Component.Artifact | subprojects/dependency-management/src/main/java/org/gradle/internal/component/local/model/DefaultLocalComponentMetadata.java:551-559 | Returns the first realised artifact with the requested name (`FirstNamed`). If there is none, it returns the missing sentinel for this component and name, and never fails. |
| ComponentModel.FirstNamed | subprojects/dependency-management/src/main/java/org/gradle/internal/component/local/model/DefaultLocalComponentMetadata.java:552-556 | Gives the index of an artifact with that name such that no earlier one has it, or none when no artifact has it. |
| LocalComponent.Component.Copy | subprojects/dependency-management/src/main/java/org/gradle/internal/component/local/model/DefaultLocalComponentMetadata.java:99-136 | Builds a fresh component under the new id, in the same order. Every configuration of the original ends prepared: declarations realised and artifacts finalised. Each copy has the same shell, the same defined lists and the transformed artifacts. Each variant is finalised and copied with transformed artifacts. The ghost log shows the transform was applied to each distinct source artifact exactly once, in first-seen order. |
| LocalComponent.Component.CopyShell | subprojects/dependency-management/src/main/java/org/gradle/internal/component/local/model/DefaultLocalComponentMetadata.java:100-103 | The copy registers every configuration, in the original order, with the same name, flags, hierarchy and attributes, and nothing declared. |
| LocalComponent.Component.CopyVariants | subprojects/dependency-management/src/main/java/org/gradle/internal/component/local/model/DefaultLocalComponentMetadata.java:109-115 | Finalises every variant and copies it with transformed artifacts. The memo then covers exactly the distinct variant artifacts. |
| LocalComponent.Component.CopyConfigurations | subprojects/dependency-management/src/main/java/org/gradle/internal/component/local/model/DefaultLocalComponentMetadata.java:117-133 | Each configuration ends `Prepared`. Its copy holds its defined lists verbatim and its transformed artifacts. The memo's log grows to the distinct sources seen so far. |
| ComponentModel.PreparedAmongAll | subprojects/dependency-management/src/main/java/org/gradle/internal/component/local/model/DefaultLocalComponentMetadata.java:117-119 | Once the loop has visited every configuration, each one equals its `Prepared` form. |
| ComponentModel.CopiesProgressAll | subprojects/dependency-management/src/main/java/org/gradle/internal/component/local/model/DefaultLocalComponentMetadata.java:117-133 | Once the loop has visited every configuration, every copy is the `CopiedConfig` of its source. |
| ComponentModel.CopiedRegistryKeepsNames | subprojects/dependency-management/src/main/java/org/gradle/internal/component/local/model/DefaultLocalComponentMetadata.java:100-103 | The copy keeps every configuration's name and hierarchy. |
| ComponentModel.CopyArtifacts | subprojects/dependency-management/src/main/java/org/gradle/internal/component/local/model/DefaultLocalComponentMetadata.java:138-148 | Returns the transform of each artifact, in order. The call log grows by exactly the artifacts not yet seen. An empty list leaves the memo and the log untouched. |
| ComponentModel.CopyArtifact | subprojects/dependency-management/src/main/java/org/gradle/internal/component/local/model/DefaultLocalComponentMetadata.java:150-157 | Returns the transform of the artifact. It calls the transform only on a memo miss, and a memo hit changes nothing. |
| ComponentModel.MemoOfExtend | subprojects/dependency-management/src/main/java/org/gradle/internal/component/local/model/DefaultLocalComponentMetadata.java:153-155 | Recording a fresh transform keeps the memo and log consistent. |
| ComponentModel.DedupSnoc | subprojects/dependency-management/src/main/java/org/gradle/internal/component/local/model/DefaultLocalComponentMetadata.java:150-157 | The first-seen log grows by an artifact exactly when it was not already there. |
| ArtifactCollections.ArtifactCollection.constructor | platforms/software/dependency-management/src/main/java/org/gradle/api/internal/artifacts/configurations/DefaultArtifactCollection.java:40-55 | Keeps the files, the leniency and the selection. Nothing is resolved yet. |
| ArtifactCollections.ArtifactCollection.EnsureResolved | platforms/software/dependency-management/src/main/java/org/gradle/api/internal/artifacts/configurations/DefaultArtifactCollection.java:101-103 | The memo holds `Finalized` of one visit with the collection's own leniency, and the selection has been visited for it exactly once. An already computed memo is left as it was. |
| ArtifactCollections.Collect | platforms/software/dependency-management/src/main/java/org/gradle/api/internal/artifacts/configurations/DefaultArtifactCollection.java:44-48 | The visitor's single pass yields exactly the `Successes` and the `Failures` of the outcomes. |
| ArtifactCollections.CollectedExactly | platforms/software/dependency-management/src/main/java/org/gradle/api/internal/artifacts/configurations/DefaultArtifactCollection.java:47-48 | An artifact is kept if and only if it was visited, and a failure is kept if and only if it was reported. |
| ArtifactCollections.StrictFailureHidesArtifacts | platforms/software/dependency-management/src/main/java/org/gradle/api/internal/artifacts/configurations/DefaultArtifactCollection.java:50-52 | In strict mode any reported failure makes the result a failure that carries it, so no artifact set is exposed. |
| ArtifactCollections.StrictResolvesIffNoFailure | platforms/software/dependency-management/src/main/java/org/gradle/api/internal/artifacts/configurations/DefaultArtifactCollection.java:50-53 | In strict mode the result resolves exactly when every outcome is an artifact, and it then has no failures. |
| ArtifactCollections.LenientAlwaysResolves | platforms/software/dependency-management/src/main/java/org/gradle/api/internal/artifacts/configurations/DefaultArtifactCollection.java:47-53 | In lenient mode the result always resolves and keeps the visited artifacts and the reported failures side by side. |
| ArtifactCollections.ArtifactCollection.GetArtifacts | platforms/software/dependency-management/src/main/java/org/gradle/api/internal/artifacts/configurations/DefaultArtifactCollection.java:73-76 | Resolves first, at most once overall. Returns the artifact set, or the stored failure. |
| ArtifactCollections.ArtifactCollection.Iterator | platforms/software/dependency-management/src/main/java/org/gradle/api/internal/artifacts/configurations/DefaultArtifactCollection.java:84-87 | Resolves first. Lists each resolved artifact exactly once, or raises the stored failure. |
| ArtifactCollections.Enumerate | platforms/software/dependency-management/src/main/java/org/gradle/api/internal/artifacts/configurations/DefaultArtifactCollection.java:86 | Lists every element of the set exactly once, in an order the set does not fix. |
| ArtifactCollections.ArtifactCollection.GetFailures | platforms/software/dependency-management/src/main/java/org/gradle/api/internal/artifacts/configurations/DefaultArtifactCollection.java:90-93 | Resolves first. Returns the failure set, or raises the stored failure. |
| ArtifactCollections.ArtifactCollection.VisitArtifacts | platforms/software/dependency-management/src/main/java/org/gradle/api/internal/artifacts/configurations/DefaultArtifactCollection.java:96-99 | Visits the selection afresh with the collection's own leniency, and neither reads nor writes the memo. |
| ArtifactCollections.ArtifactCollection.IsLenient | platforms/software/dependency-management/src/main/java/org/gradle/api/internal/artifacts/configurations/DefaultArtifactCollection.java:63-65 | Returns the constructor's flag. |
| ArtifactCollections.ArtifactCollection.GetArtifactFiles | platforms/software/dependency-management/src/main/java/org/gradle/api/internal/artifacts/configurations/DefaultArtifactCollection.java:68-70 | Returns the backing file collection unchanged. |

## Left out

- Concurrency. The `synchronized` on `getVariantsForGraphTraversal` and `realizeDependencies` and the thread safety of calculated values are not modelled. Everything is sequential.
- Calculated values are modelled as a state. A calculated-value container becomes an artifact slot (`Pending` then `Realized`) or a memo cell (`Unresolved`, `Resolved` or `Failed`). The container's own implementation is not part of this model.
- `model.fromMutableState` and the model lock are treated as simply running their function.
- Attributes and capabilities are reduced. Attributes become an emptiness flag plus an optional category name. Capabilities, display names, identifiers, descriptions used as display names and the consumption deprecation are not modelled.
- `forced()` and `PublishArtifactLocalArtifactMetadata` are reduced to small functions. `forced()` sets a flag. Binding a published artifact pairs it with the component id.
- `ResolutionHost.rethrowFailure` is assumed to raise exactly when the failure set is non-empty. The raised failure is the `Failed` state carrying that set. `getResolutionHost` and `getResolvedArtifacts` (a lazy provider) are not modelled.
- The visited selection is a function from the leniency flag to a list of outcomes. The visitor classes and the resolution behind the selection are not modelled.
- Artifact and failure sets are Dafny sets. The iteration order of the source's sets is not modelled: `Iterator` lists the set in an unspecified order.
- `withSources`, `getSources`, `isMissing`, `isChanging`, `getStatus`, `getStatusScheme`, `getPlatformOwners`, `getConfiguration`, `getAttributesSchema`, `toString` and the plain getters of a configuration are not modelled. They return constants or fields, or throw.
- Configurations are values in the registry map, addressed by name. The model hands out no configuration objects, so it has no handles that could go stale after a later `addConfiguration` under the same name.
- LocalComponent.Component.RealizeConfigArtifacts: requires every hierarchy to be registered, acyclic and transitively closed (`HierarchyWellFormed`: each other member's hierarchy is strictly smaller). The same holds for `PrepareToResolveArtifacts`, `InheritArtifacts` and `Copy`. The source also finalises hierarchies that are not transitively closed. What it does for an unregistered or cyclic hierarchy depends on the calculated-value container, which is not part of this model.
- The shortcut for empty declarations and an empty hierarchy (source lines 352-354) never applies, because every hierarchy contains its own configuration. The model keeps it, and it is unreachable there as well.
- LocalComponent.Component.Copy: fills each copied configuration with one assignment of its lists and artifacts. The source appends into the already registered copy.
- LocalComponent.Component.AddVariant: appends every variant as a new multimap entry. The source's set multimap would drop a second entry equal to an existing one. Variant equality is defined by classes that are not part of this model.
- LocalComponent.Component.AddVariant: stores the declared artifacts as a value when the variant is added. The source keeps a reference to the caller's artifact collection and reads it only when the variant is finalised, so later changes to that collection are not modelled.
- LocalComponent.Component.SetDeclarationSource: stores the backing declarations as values. The source runs the dependency actions and the builder only when the configuration's declarations are realised, so what they would see at that time is not modelled.
- LocalComponent.Component.GetConfigurationNames: returns a snapshot of the names. The source returns a live view of the registry's key set, which later `addConfiguration` calls would grow.
- The transform passed to `copy` is a pure function. A transform with side effects is not modelled; the ghost call log records when it would have been called.
