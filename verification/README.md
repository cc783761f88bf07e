# wkg: dependency and publish core

A model, with proofs, of the parts of `wkg` and its libraries that decide in which order packages are
built and published, which versions are taken, and which releases may be published at all.

- **Decode** orders decoded dependencies by depth-first search. The search never marks its root as being
  visited; cycle detection is exact all the same, because a second visit of the root cannot finish.
- **PublishPlans** builds the acyclic graph of local packages edge by edge, turns it round, and drains it
  in waves. Wave k holds the packages whose longest chain of local dependencies has k edges.
- **SemverGate** is the check in front of a publish: the series of a version, the search for the
  candidate's neighbours, the comparison of worlds, and a registry that evolves by publishing.
- **Resolver**, **Lock** and **LockMerge** collect dependencies with path overrides, resolve them against a
  registry and a lock, write the lock back, and merge lock entries from several directories.
- **Cache** and **Digests** are the file cache, the caching client and the validating stream.
- **Paths** is the lexical normalisation of paths, with the directories that a path leads to as its meaning.
- **PackageRefs**, **Versions** and **VersionReqs** are the grammar of package names and the rules of the
  `semver` crate for ordering and matching versions. **Digraph** and **Sorting** hold the general facts.

State that the program updates in place is a class here (`Visitor`, `PublishPlan`, `LocalBackend`,
`LockFile`, `DependencyResolver`, `FileCache`, `CachingClient`), and loops are loops. Each is proved against
a specification, and the lemmas are about that specification. Hash maps and hash sets are iterated in no
particular order: a method takes any element that is left.

What other crates do is fixed by contract. A graph refuses an edge that is a self loop or closes a cycle.
Comparing two worlds of one name is an uninterpreted function of the two files and the name. Reading a path,
listing a package, fetching a release and hashing content are parameters, and so is how much of some content
arrives, and how much of it is written when it does not all arrive. Where a lemma needs it, a registry asked
for a release answers with that version (`Honest`, `Setup.Valid`). A panic (a failed assertion) is an outcome
of its own, so that what makes it fire can be stated.

Where the code and its comments or tests differ, the code is followed:

- `take_ready` says that what it returns is not returned again; it removes nothing, `mark_confirmed` does.
- Fetching says that it only fetches what the lock file lacks; `fetch_into_lock` empties the lock before every
  fetch, so no fetch sees a locked version, and old entries only survive where no directory has an answer.
- Publishing a version again is meant to be refused as already existing. A prerelease is not, unless it is one
  of 0.0.Z (`DuplicateRefusedExactly`): if it passes the check against the stable releases next to it, its file
  is replaced (`RepublishedExactly`, `PrereleaseReplaced`). Nothing else is ever replaced
  (`ReleaseNeverReplaced`).
- Adding a local path twice is meant to be harmless. If the package lists its own name, an assertion fires
  (`SelfListingFires`, and exactly when in `RunCollects`).
- A local path is meant to override the registry. If the package at that path lists its own name, and is added
  once, no assertion fires, but resolving silently puts a registry release in the place of the override
  (`ResolutionOfName`).
- Generating the lock asserts that equal requirements have equal versions. They need not, because the lock
  is searched under the registry a request names and written under the configured one. `ConflictExactly` says
  exactly when the assertion fires, and `ExplicitRegistryConflicts` shows inputs. It does not fire without
  renaming (`UnrenamedNeverConflicts`), nor if the registries named are the configured ones (`NeverConflicts`).
- For the same reason the lock does not hold a package whose registry is named explicitly
  (`ExplicitRegistryMoves`; exactly when a repeated run stays where it was is in `RelockFixedExactly`).
- A write into the cache that fails leaves a file behind, and the next request is answered from it
  (`FailedPutIsServed`), also with content that was refused for its digest (`CorruptContentServed`). Exactly
  when that spoils a cache is in `RunFaithfulExactly`.

## Model

| member | source | states |
|---|---|---|
| Versions.VersionOrder | crates/wasm-pkg-client/src/release.rs:21-25 | versions are totally ordered: comparing equal means being equal, comparison is antisymmetric and transitive |
| Versions.VersionsTotallyOrdered | crates/wasm-pkg-client/src/lib.rs:194-210 | the three-way comparison obeys the laws of a total order on all versions, prereleases and build metadata included |
| Versions.LtByFields | crates/wasm-pkg-client/src/lib.rs:194-210 | what earlier means, by the fields: major, minor and patch as numbers, a prerelease below none, then the first different prerelease identifier, and build metadata last |
| Versions.IdentifierLess | crates/wasm-pkg-client/src/lib.rs:194-210 | numeric identifiers by value and below text, text by its first different character, a proper prefix below |
| VersionReqs.ExactReqMatches | crates/wasm-pkg-core/src/resolver.rs:558-566 | the exact requirement built from a locked version accepts exactly the versions that differ from it in build metadata only |
| VersionReqs.FullComparatorMeans | crates/wasm-pkg-core/src/resolver.rs:646-654 | what each operator accepts with major, minor and patch, as a range: `~` within the minor version, `^` up to a change of the leftmost number other than 0 |
| VersionReqs.PartialComparatorMeans | crates/wasm-pkg-core/src/resolver.rs:646-654 | the same where the patch, or minor and patch, are left out |
| VersionReqs.PrereleaseNamed | crates/wasm-pkg-core/src/resolver.rs:646-654 | every comparator has to accept a version, and a prerelease needs one that names a prerelease of the same major, minor and patch |
| VersionReqs.RequirementOfMatches | crates/wasm-pkg-core/src/wit.rs:420-436 | a dependency with a version asks for it up to build metadata, one without a version for any stable version |
| VersionReqs.MatchesIgnoresBuild | crates/wasm-pkg-core/src/resolver.rs:646-654 | no requirement can tell versions apart that differ in build metadata only |
| PackageRefs.ParseLabel | crates/wasm-pkg-common/src/label.rs:32-54 | accepts exactly the strings of the label grammar, which is stated character by character, and reports the first bad word |
| PackageRefs.LabelByCharacters | crates/wasm-pkg-common/src/label.rs:32-54 | a label starts with a lowercase letter, has one after each dash and no dash last, and otherwise lowercase letters and digits |
| PackageRefs.WordErrorByCharacters | crates/wasm-pkg-common/src/label.rs:40-51 | which error a word gives, by its characters |
| PackageRefs.SplitJoins | crates/wasm-pkg-common/src/label.rs:39 | the words hold no dash, and joined by dashes are the text again |
| PackageRefs.SplitMeansLabel | crates/wasm-pkg-common/src/label.rs:39-51 | the dash-separated words are all fine if and only if the characters follow the grammar |
| PackageRefs.ParseRef | crates/wasm-pkg-common/src/package.rs:36-62 | parsing inverts printing and accepts nothing but printed references |
| PackageRefs.PrintInjective | crates/wasm-pkg-common/src/package.rs:36-40 | two references that print alike are equal |
| PackageRefs.ParseSpec | crates/wasm-pkg-common/src/package.rs:71-108 | a printed spec is read back as itself, with and without a version |
| Digests.ParseDigest | crates/wasm-pkg-common/src/digest.rs:50-97 | accepts exactly the prefix and 64 hexadecimal digits, gives a lowercase digest, and reads printed digests back |
| Digests.ValidatingStream | crates/wasm-pkg-common/src/digest.rs:17-47 | passes every item on, hashing chunk by chunk, and appends an error exactly when the whole content has another digest |
| Digests.ContentConcat | crates/wasm-pkg-common/src/digest.rs:17-47 | the content hashed is the bytes of the chunks, one after the other |
| Digests.ValidatedContent | crates/wasm-pkg-common/src/digest.rs:17-47 | a reader that meets no error has all the content, and the content has the digest |
| Decode.Visitor.Visit | crates/wasm-pkg-core/src/resolver.rs:792-856 | ends on every graph; on success `visiting` is as before, `order` only grows and stays topological, and no assertion fires, also when the root is entered again; an error names a real cycle |
| Decode.EdgeByFields | crates/wasm-pkg-core/src/resolver.rs:803-850 | which packages are visited from a package, by its fields: all known foreign dependencies of a WIT package, and all known packages in a Wasm file but those with its own namespace and name |
| Decode.FallsExactly | crates/wasm-pkg-core/src/resolver.rs:803-850 | there is no cycle if and only if numbers can fall along all of these |
| Decode.NotBackAtRoot | crates/wasm-pkg-core/src/resolver.rs:803-853 | a visit all of whose successors are unvisited is not a second visit of the root, which is never marked |
| Decode.FinishTrail | crates/wasm-pkg-core/src/resolver.rs:853 | finishing a package keeps the order topological and leaves every package on the way to it unfinished |
| Decode.SortedTopological | crates/wasm-pkg-core/src/resolver.rs:714-717 | sorting the packages by their place in the order keeps them topologically ordered, whatever order they came in |
| Decode.Collect | crates/wasm-pkg-core/src/resolver.rs:694-703 | the map is built if and only if no two dependencies decode to one package |
| Decode.DecodeDependencies | crates/wasm-pkg-core/src/resolver.rs:690-720 | by the fields of the packages: succeeds if and only if names are distinct and numbers can fall along what packages need; the answer is a permutation with everything after what it needs; errors name real duplicates and cycles |
| Digraph.AddEdgeAcyclic | crates/wasm-pkg-core/src/wit.rs:250-266 | an acyclic graph stays acyclic with a new edge exactly when the edge's target does not reach its source |
| Digraph.HasPathExact | crates/wasm-pkg-core/src/wit.rs:250-266 | the computed reachability check holds if and only if there is a path |
| Digraph.ReverseAcyclic | crates/wasm-pkg-core/src/resolver.rs:894-898 | reversing an acyclic graph gives an acyclic one, so the unwrap is safe |
| Digraph.AcyclicHasSink | crates/wkg/src/main.rs:340-345 | a nonempty finite set of nodes of an acyclic graph has one without an edge into the set |
| Digraph.RanksExactly | crates/wasm-pkg-core/src/resolver.rs:690-720 | a graph on finitely many nodes is acyclic if and only if numbers can fall along its edges |
| PublishPlans.TryUpdateEdgeExact | crates/wasm-pkg-core/src/wit.rs:248-266 | an edge is accepted exactly when the graph is acyclic with it |
| PublishPlans.IndexPackages | crates/wasm-pkg-core/src/wit.rs:230-242 | succeeds if and only if no package occurs twice; then the index maps each package to its node and path |
| PublishPlans.LocalEdgeByFields | crates/wasm-pkg-core/src/wit.rs:244-269 | an edge stands for a dependency on a local package, whatever the requirement |
| PublishPlans.FallsLocallyExactly | crates/wasm-pkg-core/src/wit.rs:244-269 | the local graph is acyclic if and only if numbers can fall along the dependencies |
| PublishPlans.GetLocalDependencies | crates/wasm-pkg-core/src/wit.rs:223-270 | succeeds if and only if no package occurs twice and the local dependency graph is acyclic, in whatever order dependencies are iterated; the graph is exactly that graph; an error names a package on a cycle |
| PublishPlans.RefusedEdge | crates/wasm-pkg-core/src/wit.rs:248-266 | an edge refused half way shows a cycle of the whole local graph |
| PublishPlans.PublishPlan.FromPaths | crates/wasm-pkg-core/src/resolver.rs:875-904 | a plan exists if and only if packages are distinct, acyclic and all versioned; it holds the reversed local graph |
| PublishPlans.PublishPlan.Progress | crates/wasm-pkg-core/src/resolver.rs:923-935 | while the plan is not empty, `take_ready` is not empty |
| PublishPlans.PublishPlan.MarkConfirmed | crates/wasm-pkg-core/src/resolver.rs:949-958 | removes exactly the given packages from graph and index, and keeps them in bijection and acyclic |
| PublishPlans.ConfirmStep | crates/wasm-pkg-core/src/resolver.rs:950-957 | removing one package more |
| PublishPlans.ChainIsPath | crates/wkg/src/main.rs:339-361 | chains of k dependencies are exactly the paths of k edges in the graph |
| PublishPlans.SourcesAreWave | crates/wasm-pkg-core/src/resolver.rs:923-935 | what is ready before wave k is exactly what has a longest chain of k dependencies |
| PublishPlans.NextRemaining | crates/wkg/src/main.rs:346-360 | confirming wave k leaves what has a chain of k + 1 dependencies |
| PublishPlans.PublishWave | crates/wkg/src/main.rs:347-359 | publishes the ready packages once each, up to the first refused one |
| PublishPlans.TakeWave | crates/wkg/src/main.rs:339-361 | one round of the loop publishes wave k and leaves the plan at wave k + 1 |
| PublishPlans.PublishWaves | crates/wkg/src/main.rs:339-361 | the loop ends; without a failure the plan is empty and the waves are complete; with one, all earlier waves and part of the failed package's wave are done; skipped duplicates count as done |
| PublishPlans.HandledClosed | crates/wkg/src/main.rs:339-361 | at every moment, also after a failure, each local dependency of a handled package was handled in an earlier wave |
| PublishPlans.HandledAtMostOnce | crates/wkg/src/main.rs:339-361 | at every moment, also after a failure, no package was handled in two waves |
| PublishPlans.HandledOnce | crates/wkg/src/main.rs:339-361 | without a failure every package is handled, in one wave only |
| PublishPlans.DependenciesPublishedFirst | crates/wasm-pkg-core/src/wit.rs:244-269 | seen from the parsed packages: whatever a published package depends on was published in an earlier wave |
| PublishPlans.FewestWaves | crates/wkg/src/main.rs:336-339 | no schedule that publishes dependencies in earlier waves has fewer waves |
| PublishPlans.WavesAreASchedule | crates/wkg/src/main.rs:336-339 | publishing by longest chain is such a schedule, so the bound is met |
| PublishPlans.PublishPaths | crates/wkg/src/main.rs:319-362 | a whole run over several paths, by what was parsed: it starts if and only if packages are distinct, versioned and without a cycle; each package is published once and after its dependencies, also if the run fails; only skipped duplicates pass as published; a run without a failure publishes everything, and a failed package had all its dependencies published |
| SemverGate.SemverCheck | crates/wasm-pkg-client/src/decoded_component.rs:73-125 | succeeds if and only if every world of the older release is in the newer one and passes, whichever argument comes first; an error fits the pair |
| SemverGate.ListMatchingVersions | crates/wasm-pkg-client/src/loader.rs:24-47 | exactly the listed versions that match, as often as listed, sorted either way |
| SemverGate.SeriesMaskMatches | crates/wasm-pkg-client/src/lib.rs:358-382 | the mask matches the stable versions of the series, and prereleases only for a 0.0.Z prerelease candidate |
| SemverGate.SeriesEquivalence | crates/wasm-pkg-client/src/lib.rs:369-375 | on stable versions, being in the series of is an equivalence |
| SemverGate.FindNeighbors | crates/wasm-pkg-client/src/lib.rs:190-211 | over a descending list, reports the candidate if and only if it is listed, and otherwise leaves the greatest smaller and the least greater version |
| SemverGate.LocalBackend.ListAllVersions | crates/wasm-pkg-client/src/local.rs:89-121 | lists exactly the stored versions, and nothing for an unknown package |
| SemverGate.LocalBackend.Publish | crates/wasm-pkg-client/src/local.rs:151-175 | stores the release; a dry run leaves all releases as they were; other packages are untouched |
| SemverGate.SortedSeries | crates/wasm-pkg-client/src/lib.rs:227-231 | sorting puts the candidate between its neighbours |
| SemverGate.CheckSeries | crates/wasm-pkg-client/src/lib.rs:213-237 | the sorted windows check exactly the pairs that the candidate forms with its neighbours |
| SemverGate.FetchSemverSeries | crates/wasm-pkg-client/src/lib.rs:364-382 | lists exactly the releases in the candidate's series, greatest first |
| SemverGate.OnlyNeighbors | crates/wasm-pkg-client/src/lib.rs:190-211 | what the search leaves are the only next releases below and above |
| SemverGate.Preflight | crates/wasm-pkg-client/src/lib.rs:187-237 | passes exactly what the specification of the gate accepts |
| SemverGate.AcceptsInFull | crates/wasm-pkg-client/src/lib.rs:187-237 | what passes: no stored stable or 0.0.Z version, the worlds of the next release below kept by the candidate, those of the candidate kept by the next one above |
| SemverGate.ZeroNeighbors | crates/wasm-pkg-client/src/lib.rs:364-382 | a prerelease of 0.0.Z is never compared with an older release, and above it with the next release of 0.0.Z of any kind |
| SemverGate.PublishReleaseData | crates/wasm-pkg-client/src/lib.rs:167-243 | publishes if and only if the gate is off or accepts; a dry run or an error changes no release, and a publish the candidate only; an error fits a neighbour |
| SemverGate.StepEffect | crates/wasm-pkg-client/src/lib.rs:187-243 | what a gated publish does to every package: nothing on a dry run or a refusal, otherwise one release of one package |
| SemverGate.DryRunsLeaveNoTrace | crates/wasm-pkg-client/src/local.rs:164-166 | over any run, leaving the dry runs out gives the same releases |
| SemverGate.DuplicateRefusedExactly | crates/wasm-pkg-client/src/lib.rs:194-201 | a stored version is refused as already existing if and only if it is stable or one of 0.0.Z |
| SemverGate.RepublishedExactly | crates/wasm-pkg-client/src/lib.rs:187-243 | in any registry, publishing a stored version again is let through if and only if it is any other prerelease and passes the check against its stable neighbours; then its file is replaced, and otherwise nothing changes |
| SemverGate.PrereleaseReplaced | crates/wasm-pkg-client/src/lib.rs:364-382 | inputs that show it: into an empty registry, a prerelease not of 0.0.Z can be published twice, and the second file replaces the first |
| SemverGate.ReleaseNeverReplaced | crates/wasm-pkg-client/src/lib.rs:194-201 | a gated publish removes no release and never changes one that is stable or one of 0.0.Z |
| SemverGate.ReleasesStay | crates/wasm-pkg-client/src/lib.rs:194-243 | nor does any sequence of gated publishes, after whichever of them the release is there |
| SemverGate.NeighborsAreConsecutive | crates/wasm-pkg-client/src/lib.rs:190-236 | a stable candidate's neighbours are the releases it would be consecutive with |
| SemverGate.GateExact | crates/wasm-pkg-client/src/lib.rs:187-237 | the gate lets a new stable version in if and only if every series stays compatible |
| SemverGate.StepKeepsCompatible | crates/wasm-pkg-client/src/lib.rs:187-243 | a gated publish, successful or not, keeps every package's series compatible |
| SemverGate.GatedRunsStayCompatible | crates/wasm-pkg-client/src/lib.rs:187-243 | after any sequence of gated publishes, in each series any two consecutive stable versions pass the check |
| SemverGate.WorldsKept | crates/wasm-pkg-client/src/decoded_component.rs:87-95 | along a compatible series no world is ever lost |
| SemverGate.WorldsMonotone | crates/wasm-pkg-client/src/decoded_component.rs:87-95 | in any registry reached by gated publishes, every world of an older stable release is in every newer one of its series |
| Lock.Tabulate | crates/wasm-pkg-core/src/lock.rs:219-247 | groups the resolutions by package and registry; the assertion fires if and only if equal requirements have different versions |
| Lock.GenerateLockedPackages | crates/wasm-pkg-core/src/lock.rs:219-267 | one package per name and registry, distinct requirements, every entry from a resolution and every resolution with an entry |
| Lock.GeneratedByFields | crates/wasm-pkg-core/src/lock.rs:219-267 | by the fields: each entry has package, registry, requirement, version and digest of one resolution, and each resolution has an entry |
| Lock.LookupInFull | crates/wasm-pkg-core/src/lock.rs:192-211 | the first entry for the requirement, of the package of that name and registry, and none only if there is none |
| Lock.LockFile.UpdateDependencies | crates/wasm-pkg-core/src/lock.rs:127-130 | the lock becomes what the resolutions generate, and keeps nothing else |
| LockMerge.MergeVersions | crates/wkg/src/wit.rs:320-330 | overwrites the slot of each incoming requirement or appends it; slots keep their places; lookups prefer the incoming side |
| LockMerge.SetSlot | crates/wkg/src/wit.rs:321-329 | writing a slot changes the answer for its requirement only |
| LockMerge.MergePackage | crates/wkg/src/wit.rs:317-334 | merging one package changes the answers for its key only |
| LockMerge.MergeLockedPackages | crates/wkg/src/wit.rs:316-336 | right-biased override on package, registry and requirement; one package per key, distinct requirements |
| LockMerge.GeneratedTidy | crates/wasm-pkg-core/src/lock.rs:219-267 | what a run generates has distinct requirements within each package, as merging needs |
| LockMerge.MergeSound | crates/wkg/src/wit.rs:316-336 | merging sets whose versions satisfy their requirements gives such a set |
| LockMerge.FetchIntoLock | crates/wkg/src/wit.rs:275-297 | the result answers each lookup from the last directory with an answer, or else from the old lock; every fetch sees an empty lock; a failed fetch writes nothing; if all versions that come in satisfy their requirements, so do those of the result |
| LockMerge.LastAnswerIs | crates/wkg/src/wit.rs:275-297 | which directory answers: the last that has an answer |
| Resolver.DependencyResolver.AddDependency | crates/wasm-pkg-core/src/resolver.rs:416-501 | one addition is the step of the specification, with its early return and its assertion |
| Resolver.DependencyResolver.AddPackages | crates/wasm-pkg-core/src/resolver.rs:505-521 | a list of packages is added as requests, in order |
| Resolver.AddRequestsEffect | crates/wasm-pkg-core/src/resolver.rs:452-461 | requests go to the names not known before, and the first request for a name wins |
| Resolver.RequestedByFields | crates/wasm-pkg-core/src/resolver.rs:423-461 | a request is for the renamed package or else the name, with its own requirement, pinned to what the lock has under the registry named or else the configured one |
| Resolver.FirstListedByFields | crates/wasm-pkg-core/src/resolver.rs:505-521 | a listed package is requested under its own name with the requirement listed first for it |
| Resolver.FirstRequestInFull | crates/wasm-pkg-core/src/resolver.rs:416-521 | which addition decides on a name without a local path: the first that asks for it, directly or through a path |
| Resolver.FirstLocalInFull | crates/wasm-pkg-core/src/resolver.rs:463-496 | which path decides: the first that the name is added with |
| Resolver.RunCollects | crates/wasm-pkg-core/src/resolver.rs:416-521 | for any additions whose paths can be read, the assertion fires if and only if a name is added as a local path again after a first path that lists the name; otherwise first local paths and first requests are what is collected |
| Resolver.RunEndsExactly | crates/wasm-pkg-core/src/resolver.rs:463-496 | for all additions: a run fails at the first path that cannot be read when its name is new, or that comes again for a name whose first path lists it, and with which of the two errors |
| Resolver.SelfListingFires | crates/wasm-pkg-core/src/resolver.rs:487-496 | an input on which the assertion fires |
| Resolver.InBothExactly | crates/wasm-pkg-core/src/resolver.rs:484-496 | a name is in both maps exactly when its first path lists it |
| Resolver.PathOverridesWin | crates/wasm-pkg-core/src/resolver.rs:416-521 | if no local package lists its own name, path overrides are collected in every order, the maps are disjoint and the assertion never fires |
| Resolver.ResolutionOfName | crates/wasm-pkg-core/src/resolver.rs:528-618 | what `resolve` returns for a name: its first local path if and only if that path does not list the name, and otherwise a registry release for the requirement listed; without a local path, one for its first request, and nothing without any |
| Resolver.RequestOfName | crates/wasm-pkg-core/src/resolver.rs:528-618 | package, registry and requirement of any other name are those that the first addition asking for it has |
| Resolver.FindLatestRelease | crates/wasm-pkg-core/src/resolver.rs:646-654 | a listed, matching release that is not yanked, and none only if there is none |
| Resolver.LatestIsGreatest | crates/wasm-pkg-core/src/resolver.rs:646-654 | no release that could be selected is later than the selected one |
| Resolver.LatestInFull | crates/wasm-pkg-core/src/resolver.rs:646-654 | by the order on versions: it is above every other listed, matching version that is not yanked |
| Resolver.ResolveDependency | crates/wasm-pkg-core/src/resolver.rs:534-597 | one dependency is resolved as specified, with each package listed once |
| Resolver.Resolve | crates/wasm-pkg-core/src/resolver.rs:528-620 | succeeds if and only if every dependency resolves, whatever the iteration order; registry resolutions take the place of local ones |
| Resolver.ResolvedRelease | crates/wasm-pkg-core/src/resolver.rs:555-597 | a listed pin is taken, with the locked digest; otherwise a latest matching release |
| Resolver.ErrorsInFull | crates/wasm-pkg-core/src/resolver.rs:534-597 | why a dependency does not resolve: unknown, nothing to select, a failed fetch, or a digest that is not the locked one |
| Resolver.ResolvedMatches | crates/wasm-pkg-core/src/resolver.rs:555-597 | a resolved version satisfies its requirement, also when kept through the exact match |
| Resolver.UpdateLock | crates/wasm-pkg-core/src/wit.rs:66-70 | one build, up to the lock: it succeeds if and only if collecting and resolving do and the lock assertion holds; then the lock is one that the run generates; a failure to collect or resolve leaves it as it was |
| Resolver.RelockSound | crates/wasm-pkg-core/src/wit.rs:66-70 | one run keeps a sound lock sound |
| Resolver.LocksStaySound | crates/wasm-pkg-core/src/wit.rs:66-70 | over any sequence of online runs from an empty lock, every locked version satisfies its requirement |
| Resolver.FetchedRunsSound | crates/wkg/src/wit.rs:275-297 | what fetching each directory from an empty lock leaves is sound, as `FetchIntoLock` needs for a sound result |
| Resolver.SameAimSameVersion | crates/wasm-pkg-core/src/resolver.rs:555-597 | two dependencies on one package with one requirement get different versions if and only if their listed pins, or else their greatest matches, differ in more than build metadata |
| Resolver.ConflictExactly | crates/wasm-pkg-core/src/lock.rs:226-243 | for any additions, the assertion in generating the lock fires if and only if two collected requests of one package, requirement and configured registry, each pinned under the registry it asks for, aim at different versions of what is listed |
| Resolver.UnrenamedNeverConflicts | crates/wasm-pkg-core/src/lock.rs:240-243 | without renamed packages it never fires, whatever registries are named |
| Resolver.NeverConflicts | crates/wasm-pkg-core/src/lock.rs:240-243 | it never fires if every registry named is the configured one, also with renamed packages |
| Resolver.ExplicitRegistryConflicts | crates/wasm-pkg-core/src/resolver.rs:425-437 | inputs with an explicitly named registry on which the assertion fires |
| Resolver.AddAllSameButPins | crates/wasm-pkg-core/src/resolver.rs:425-461 | the lock has no influence on what is collected, but for the pinned versions |
| Resolver.PinHolds | crates/wasm-pkg-core/src/resolver.rs:555-597 | a dependency pinned to a release resolves to it again if and only if that is still the greatest listed one equal to it up to build metadata, and its digest is the same |
| Resolver.ResolvesToExactly | crates/wasm-pkg-core/src/resolver.rs:555-597 | a dependency, pinned or not, resolves to a release if and only if that is the greatest listed one equal to its pin, while that is listed, or else to its greatest match, and it can be fetched, with the locked digest |
| Resolver.RelockFixedExactly | crates/wasm-pkg-core/src/wit.rs:66-70 | for any additions and any two locks, a second run gives the same resolutions if and only if every dependency, with the pin it now has, leads to what was resolved for it before |
| Resolver.RelockFixedPoint | crates/wasm-pkg-core/src/wit.rs:66-70 | replaying the additions, renamed or not, with the lock just produced gives the same resolutions if and only if each locked release is still there, unchanged and not passed by one that differs in build metadata only, whatever else was released since |
| Resolver.RelockAnswersAlike | crates/wasm-pkg-core/src/lock.rs:219-267 | and the lock of the second run answers every lookup as the lock before |
| Resolver.ExplicitRegistryMoves | crates/wasm-pkg-core/src/resolver.rs:425-437 | inputs on which the lock does not hold: a package with a registry named explicitly moves on to a newer release |
| Resolver.RelockSameLock | crates/wkg/src/main.rs:372-386 | without renaming it is the same lock, so that the comparison before a publish finds no change |
| Cache.ReleaseFileInjective | crates/wasm-pkg-client/src/caching/file.rs:115-118 | the file name of a release determines package and version |
| Cache.ReleaseNotContent | crates/wasm-pkg-client/src/caching/file.rs:86-87 | no release file is a content file |
| Cache.ContentFileInjective | crates/wasm-pkg-client/src/caching/file.rs:86-87 | the file name of content determines the digest |
| Cache.FileCache.PutData | crates/wasm-pkg-client/src/caching/file.rs:86-96 | copies a stream through a buffer; on success all of it, and on an error whatever part of what arrived was written, which stays |
| Cache.WriteDataRead | crates/wasm-pkg-client/src/caching/file.rs:86-113 | content that was filed is read back; other content and all releases read as before |
| Cache.WriteReleaseRead | crates/wasm-pkg-client/src/caching/file.rs:115-149 | a release that was filed is read back; other releases and all content read as before |
| Cache.KeptInFull | crates/wasm-pkg-client/src/caching/file.rs:86-96 | without an error a file holds all the content, and otherwise as many bytes as were written of what came before the error |
| Cache.CachingClient.GetRelease | crates/wasm-pkg-client/src/caching/mod.rs:78-92 | in terms of the files: a filed release is answered, online or not; otherwise, online, the registry answers and the release is filed; else it is an error and nothing is filed |
| Cache.CachingClient.GetContent | crates/wasm-pkg-client/src/caching/mod.rs:97-120 | in terms of the files: filed content is answered, online or not; otherwise, online, it is answered and filed if all of it arrives, without an error and with the digest, and else a part of it is filed |
| Cache.DirectInFull | crates/wasm-pkg-client/src/lib.rs:141-148 | what the client without a cache gives: all the content, if it has no error and has the digest |
| Cache.AnsweredReleaseStays | crates/wasm-pkg-client/src/caching/mod.rs:83-90 | a release once answered is filed, and answered again offline |
| Cache.AnsweredContentStays | crates/wasm-pkg-client/src/caching/mod.rs:102-113 | content once answered is filed, and answered again offline |
| Cache.PutContentFaithful | crates/wasm-pkg-client/src/caching/file.rs:86-96 | a content write keeps the cache faithful exactly when the bytes have the digest they are filed under |
| Cache.PutReleaseFaithful | crates/wasm-pkg-client/src/caching/file.rs:115-128 | filing what the registry says keeps releases faithful and touches no content |
| Cache.ReleaseAnswers | crates/wasm-pkg-client/src/caching/mod.rs:78-92 | where the filed releases are faithful, releases are answered as the registry answers them, and stay faithful |
| Cache.ContentAnswers | crates/wasm-pkg-client/src/caching/mod.rs:97-120 | from a faithful cache, content has the digest asked for, and fetched content is what the client without a cache gives; the cache stays faithful if and only if no write fails, or what it left has the digest |
| Cache.FailedPutIsServed | crates/wasm-pkg-client/src/caching/mod.rs:102-113 | after a failed write, however much was written, the next request is answered with what is left, wrong exactly when that has another digest |
| Cache.CorruptContentServed | crates/wasm-pkg-client/src/caching/mod.rs:102-113 | inputs that show it: content with another digest is refused without a cache and on the first request, and what was written of it, possibly all, is given out on the second |
| Cache.RunFiles | crates/wasm-pkg-client/src/caching/mod.rs:78-120 | after any sequence of requests, whatever fails, releases are faithful and each digest has what the first fetch for it left |
| Cache.RunFaithfulExactly | crates/wasm-pkg-client/src/caching/mod.rs:78-120 | the cache is faithful after a run if and only if each first fetch of a digest went through, or failed but left bytes with that digest |
| Cache.ReleasesRefineRegistry | crates/wasm-pkg-client/src/caching/mod.rs:78-92 | after any run, whatever failed, a release is answered as the registry answers it |
| Cache.ContentRefinesRegistry | crates/wasm-pkg-client/src/caching/mod.rs:97-120 | after any run content is answered with what the first fetch of the digest left; it has the digest, and is what the client without a cache gives unless these two contents collide, if and only if that fetch was harmless |
| Cache.FetchedOnceForAll | crates/wasm-pkg-client/src/caching/mod.rs:97-120 | once the first fetch of a digest was complete and accepted, every later answer for the digest is what the client without a cache gives for that first request, whatever the hash |
| Cache.RunReleases | crates/wasm-pkg-client/src/caching/mod.rs:78-92 | after any run exactly those releases are filed that were asked for and the registry has |
| Cache.OfflineAnswersExactly | crates/wasm-pkg-client/src/caching/mod.rs:78-120 | after any online run, a client that goes offline answers exactly the releases asked for before and what first fetches left, and changes nothing |
| Paths.NormalizePath | crates/wasm-pkg-core/src/manifest/paths.rs:36-68 | the result is canonical and leads to the same directory as the input from every starting directory |
| Paths.WalkOn | crates/wasm-pkg-core/src/manifest/paths.rs:36-68 | where each kind of component leads: `..` up but never above the root, `.` nowhere, the root to the root, a name into it |
| Paths.CanonicalUnique | crates/wasm-pkg-core/src/manifest/paths.rs:36-68 | different canonical paths lead to different directories from somewhere |
| Paths.NormalFormIdempotent | crates/wasm-pkg-core/src/manifest/paths.rs:36-68 | normalising twice changes nothing more |
| Paths.NormalFormDecides | crates/wasm-pkg-core/src/manifest/paths.rs:36-68 | two paths normalise equally if and only if they lead to the same directory from everywhere |

## Left out

- Parsing of WIT files, decoding and encoding of components, merging of resolves and the comparison of two worlds: libraries that are not part of this model; a decoded package is a name and the names it mentions, a comparison is a function of two files and a world name.
- The inside of the graph library: modelled by what adding, removing and reversing do.
- Text forms of versions, requirements, lock files and cached releases: taken to round-trip; `Cache` and `PackageRefs.ParseSpec` take the version printer as a parameter and need it to be injective and to start with a digit.
- Failures of the disk: the only write into the cache that fails here is one whose content stream fails or breaks off; failures to read or list during the pre-flight checks, which end a publish without changing the registry, are left out too.
- The OCI backend, authentication, configuration files, registry metadata and the choice of a registry: the configured registry is a function of the package name.
- Offline resolution: lock properties are about online runs.
- `override_dependency`: it can put a name into both maps.
- The bytes that a publish run sends, built beforehand by the verifier of the plan: the wave loop only sees how each publish ends.
- Concurrent publishers: the gate lists and then publishes without a lock, so runs are sequential.
- Windows path prefixes: paths are Unix paths, given by their components.
- Non-ASCII text: lowercasing a digest is modelled for ASCII; any other character is refused as not hexadecimal, here and there, though possibly as another error.
- LockMerge.FetchIntoLock: requires distinct requirements within each package of the old lock and of what a fetch leaves, as generating a lock ensures; a lock file written by hand could break that.
- Resolver.RelockSameLock: for additions without renaming and without another registry than the configured one, since with renaming the order of the entries of one package in the lock is not fixed; then the two locks answer every lookup alike (`RelockAnswersAlike`).
- Display, command line, workspace discovery, globbing, writing of dependency directories and tracing.
