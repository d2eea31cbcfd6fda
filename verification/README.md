# Extension enhancer, artifact coordinate and dependency tree, in Dafny

This project models three parts of the Bee build tool and proves properties of them.

- **`bee.extension.JavaExtension`** adds extension methods to library jars. It walks the extension repository's archive-to-definitions map. Each archive it finds on the caller's class path is handled in four steps:
  - it is taken off the list;
  - it is copied into `<output>/local-library` as `name-<yyyyMMddHHmmss>.jar`, after the older `name-*.jar` copies are deleted as far as the disk allows;
  - the copy is appended to the list;
  - the class file of every target class is rewritten inside the copy, once per class, with all of that class's definitions.
- **`bee.repository.Library`** is an immutable (artifact, group, version) coordinate. It provides its repository path, a null-safe `equals`, the 31-polynomial `hashCode` and `toString`.
- **`bee.task.Dependency`** prints the dependency tree. Each node gets one tab-indented line, in pre-order. Each node's children are sorted in place by artifactId before they are visited.

Modules:

- `JavaText` (`java_text.dfy`) holds the Java semantics the code relies on:
  - 32-bit `int` wrap-around;
  - `String.hashCode`;
  - `String.compareTo`, proved to be a total order.
- `Library` (`library.dfy`) models `Library.java`.
- `Dependency` (`dependency.dfy`) models `Dependency.java`.
  - The recursive `show` is the method `Show`. Its for loop is proved against the functions `Render` (the lines written) and `SortTree` (the tree as the in-place sorts leave it).
  - `SortChildren`, an insertion sort, is the reference for `List.sort`. It is proved sorted, stable and a permutation. Every stable sort by artifactId is proved equal to it.
- `Timestamp` (`timestamp.dfy`) holds the `yyyyMMddHHmmss` format and its inverse.
- `JavaExtension` (`java_extension.dfy`) models `JavaExtension.java`.
  - `PathList` is the caller's `List<Path>`, which is changed in place.
  - The class `JavaExtension` holds the disk (a map from paths to jars, a jar being a map from entry names to bytes). Its methods `ManageLocalLibrary`, `RewriteClasses`, `EnhanceArchive` and `Enhance` do the work with loops. Each is proved equal to a specification function (`Manage`, `PatchAll`, `EnhanceEntry`, `EnhanceAll`), and the lemmas are stated about those functions.

Parameters stand for what the model does not compute:

- `Version`'s `toString`, `equals` and `hashCode`;
- `Paths.getName`;
- the clock (the reading taken when the n-th copy is made);
- the files whose deletion fails;
- the bytecode rewrite of `enhanceMethodExtension`;
- the project's output directory.

Three behaviours of the code worth noting:

- `enhance` appends the enhanced copy at the end of the list. It does not put it at the original's position.
- The copy's name always ends in `.jar`, whatever the original's extension.
- A missing class file stops `enhance`, but closing the zip keeps the class files already rewritten in the copy.

## Model

| member | source | states |
|---|---|---|
| Library.New | src/main/java/bee/repository/Library.java:45-49 | artifact and group are stored as given; the version holds the given string |
| Library.ToPath | src/main/java/bee/repository/Library.java:122-130 | the path ends with the extension and begins with the group followed by `/` |
| Library.ToPathSegments | src/main/java/bee/repository/Library.java:122-130 | when no part contains `/`, splitting the path at `/` gives exactly group, artifact, version and `artifact-version` + extension |
| Library.ToPathInjective | src/main/java/bee/repository/Library.java:122-130 | the path determines the group, artifact and version texts |
| Library.ToString | src/main/java/bee/repository/Library.java:170-175 | the artifact text, a `-`, then the version text, a null artifact rendering as `null` |
| Library.ToInternal | src/main/java/bee/repository/Library.java:81-83 | the repository root with exactly `toPath(extension)` below it |
| Library.LoadAsWritten | src/main/java/bee/repository/Library.java:61-72 | `load` returns the internal location for extension `jar` |
| Library.LoadAsWrittenMissesJar | src/main/java/bee/repository/Library.java:63 | that location is not the `.jar` file: it is one character shorter and ends `<artifact>-<version>jar` |
| Library.Load | src/main/java/bee/repository/Library.java:61-72 | corrected: the location is the repository root with `toPath(".jar")`, which ends in `.jar` |
| Library.Equals | src/main/java/bee/repository/Library.java:149-164 | false for null and for another class; true for the same object; otherwise true iff artifact, group and version are pairwise equal, with two nulls equal |
| Library.EqualsSymmetric | src/main/java/bee/repository/Library.java:149-164 | symmetric when version equality is |
| Library.EqualsTransitive | src/main/java/bee/repository/Library.java:149-164 | transitive when version equality is |
| Library.HashCode | src/main/java/bee/repository/Library.java:136-143 | the stepwise `int` computation equals 31^3 + 31^2·h(artifact) + 31·h(group) + h(version) wrapped once to 32 bits; a null field counts 0 |
| Library.EqualsImpliesEqualHash | src/main/java/bee/repository/Library.java:136-164 | equal libraries have equal hash codes when equal versions do |
| JavaText.StringHash | src/main/java/bee/repository/Library.java:139-140 | `String.hashCode` is a Java `int` and equals the exact polynomial Σ s[i]·31^(n-1-i) wrapped to 32 bits |
| JavaText.CompareToZero | src/main/java/bee/task/Dependency.java:41 | `compareTo` is 0 exactly for equal strings |
| JavaText.AtMostAntisymmetric | src/main/java/bee/task/Dependency.java:41 | two strings that each sort no later than the other are equal |
| JavaText.AtMostTransitive | src/main/java/bee/task/Dependency.java:41 | the artifactId order is transitive |
| JavaText.CompareTo | src/main/java/bee/task/Dependency.java:41 | `String.compareTo`: its partner lemmas prove it 0 exactly for equal strings, antisymmetric in sign, and the order it induces total, antisymmetric and transitive |
| Dependency.SortChildrenSorted | src/main/java/bee/task/Dependency.java:41 | the sorted children are in ascending artifactId order |
| Dependency.SortChildrenStable | src/main/java/bee/task/Dependency.java:41 | children with the same artifactId keep their relative order |
| Dependency.SortChildrenPermutes | src/main/java/bee/task/Dependency.java:40-41 | sorting adds and loses no child: the multiset is unchanged |
| Dependency.StableSortUnique | src/main/java/bee/task/Dependency.java:41 | two sorted lists with the same nodes per artifactId, in the same order, are equal |
| Dependency.AnyStableSortIsSortChildren | src/main/java/bee/task/Dependency.java:41 | any stable sort by artifactId, `List.sort` included, yields `SortChildren` |
| Dependency.SortChildren | src/main/java/bee/task/Dependency.java:41 | the reference stable sort by artifactId: the lemmas above prove it sorted, stable and a permutation, and the only result a stable sort can have |
| Dependency.LineDepth | src/main/java/bee/task/Dependency.java:38 | a node's line starts with exactly `depth` tabs when the groupId does not start with a tab |
| Dependency.Line | src/main/java/bee/task/Dependency.java:38 | `depth` tabs, then groupId, artifactId and version separated by `  :  `; `LineDepth` proves the indentation can be read back |
| Dependency.Show | src/main/java/bee/task/Dependency.java:36-46 | the loop writes exactly the pre-order listing `Render` and leaves the tree `SortTree` |
| Dependency.Tree | src/main/java/bee/task/Dependency.java:26-28 | showing the graph from depth 0 writes exactly `Render(0, graph)`, one line per node with the root's line first and unindented, and leaves exactly `SortTree(graph)`, whose every child list is sorted |
| Dependency.Render | src/main/java/bee/task/Dependency.java:36-46 | the pre-order listing of the tree with sorted children; `Show` is proved to write it, and `RenderLength`, `RenderDepth` and `ChildrenOneLevelDeeper` state its shape |
| Dependency.SortTree | src/main/java/bee/task/Dependency.java:40-45 | the tree as the in-place sorts leave it; `Show` is proved to leave it, and `SortFirstElements`, `SortTreeSorts`, `SortTreeKeepsSorted` and `SortTreeIdempotent` state what it is |
| Dependency.RenderLength | src/main/java/bee/task/Dependency.java:36-46 | the listing has exactly one line per node |
| Dependency.RenderDepth | src/main/java/bee/task/Dependency.java:36-46 | the node's own line comes first with `depth` tabs; every later line, which belongs to a descendant, has more |
| Dependency.ChildrenOneLevelDeeper | src/main/java/bee/task/Dependency.java:41-45 | the lines indented by exactly `depth + 1` tabs are the children's own lines, in sorted order |
| Dependency.SortFirstElements | src/main/java/bee/task/Dependency.java:40-45 | after `show`, the children are the stably sorted original children, each itself shown |
| Dependency.SortTreeSorts | src/main/java/bee/task/Dependency.java:40-45 | after `show`, every child list in the tree is sorted by artifactId |
| Dependency.SortTreeKeepsSorted | src/main/java/bee/task/Dependency.java:40-45 | a tree whose child lists are already sorted is left unchanged |
| Dependency.SortTreeIdempotent | src/main/java/bee/task/Dependency.java:40-45 | showing a tree a second time reorders nothing |
| Timestamp.Format | src/main/java/bee/extension/JavaExtension.java:41 | the timestamp is 14 decimal digits |
| Timestamp.FormatRoundTrip | src/main/java/bee/extension/JavaExtension.java:41 | the date-time can be read back from its timestamp |
| Timestamp.FormatInjective | src/main/java/bee/extension/JavaExtension.java:41 | different seconds give different timestamps |
| JavaExtension.HasExtension | src/main/java/bee/extension/JavaExtension.java:69-71 | the repository has at least one archive entry; when it has none, `NoExtensionChangesNothing` proves `enhance` changes nothing |
| JavaExtension.HasJREExtension | src/main/java/bee/extension/JavaExtension.java:80-82 | some archive entry is a JRE archive; `JREExtensionIsExtension` proves it implies `HasExtension` |
| JavaExtension.JREExtensionIsExtension | src/main/java/bee/extension/JavaExtension.java:69-82 | having a JRE extension implies having an extension |
| JavaExtension.NoExtensionChangesNothing | src/main/java/bee/extension/JavaExtension.java:69-71 | without any extension, `enhance` changes neither the list nor the disk (the empty case of `EnhanceWithoutArchives`) |
| JavaExtension.ClassEntry | src/main/java/bee/extension/JavaExtension.java:117 | the entry is the class name with no `.` left, followed by `.class` |
| JavaExtension.ClassEntryRoundTrip | src/main/java/bee/extension/JavaExtension.java:117 | the class name can be read back from its entry |
| JavaExtension.ClassEntryInjective | src/main/java/bee/extension/JavaExtension.java:117 | distinct classes have distinct class file entries |
| JavaExtension.LocalName | src/main/java/bee/extension/JavaExtension.java:190 | the copy's name is 19 characters longer than the archive's name |
| JavaExtension.LocalNameMatches | src/main/java/bee/extension/JavaExtension.java:180-190 | the copy's name matches `name-*.jar`, so the next call prunes it |
| JavaExtension.LocalNameInjective | src/main/java/bee/extension/JavaExtension.java:190 | copies made at different seconds have different names |
| JavaExtension.PruneReachesLongerNames | src/main/java/bee/extension/JavaExtension.java:180 | `name-*.jar` also matches the copies of an archive named `name-<anything>` |
| JavaExtension.Manage | src/main/java/bee/extension/JavaExtension.java:175-197 | when the copy succeeds, it is on disk |
| JavaExtension.ManageOutcome | src/main/java/bee/extension/JavaExtension.java:175-197 | the copy fails for a missing original exactly when the original is missing or was pruned; it fails for a taken name exactly when a locked file has the copy's name; otherwise the copy is byte-identical to the original, which is unchanged |
| JavaExtension.ManageLeavesOneCopy | src/main/java/bee/extension/JavaExtension.java:180-186 | pruning touches only the local library's `name-*.jar` files; after a successful copy the only such files are the new copy and those whose deletion failed |
| JavaExtension.JavaExtension.ManageLocalLibrary | src/main/java/bee/extension/JavaExtension.java:175-197 | the delete loop, which ignores failed deletions, followed by the copy, leaves the disk and the result `Manage` describes |
| JavaExtension.ToTableGroups | src/main/java/bee/extension/JavaExtension.java:113 | one group per targeted class, never two; each group holds exactly its class's definitions, in order |
| JavaExtension.GroupIndex | src/main/java/bee/extension/JavaExtension.java:113 | every definition's class has a group, and that group holds all of the class's definitions |
| JavaExtension.ToTable | src/main/java/bee/extension/JavaExtension.java:113 | `toTable(def -> def.targetClass)`: `ToTableGroups` and `GroupIndex` prove one group per targeted class, holding exactly that class's definitions in order |
| JavaExtension.PatchAll | src/main/java/bee/extension/JavaExtension.java:115-124 | rewriting never adds or removes a jar entry |
| JavaExtension.PatchAllStops | src/main/java/bee/extension/JavaExtension.java:115-134 | after a missing class file, the later groups change nothing |
| JavaExtension.PatchAllPassesThrough | src/main/java/bee/extension/JavaExtension.java:115-124 | an entry that is no group's class file is unchanged |
| JavaExtension.PatchAllRewrites | src/main/java/bee/extension/JavaExtension.java:115-124 | when nothing is missing, each group's class file holds the enhancer's output for its original bytes and the group's definitions |
| JavaExtension.TableRewriteKeeps | src/main/java/bee/extension/JavaExtension.java:113-124 | entries that are not a targeted class file pass through byte for byte |
| JavaExtension.TableRewriteClass | src/main/java/bee/extension/JavaExtension.java:113-124 | a targeted class file is rewritten once, with all definitions for that class |
| JavaExtension.JavaExtension.RewriteClasses | src/main/java/bee/extension/JavaExtension.java:112-124 | the read-rewrite-write loop over the groups leaves the copy `PatchAll` describes; no other file changes |
| JavaExtension.RemoveFirstCount | src/main/java/bee/extension/JavaExtension.java:108 | removal takes out one occurrence when there is one, and otherwise changes nothing |
| JavaExtension.RemoveFirstAt | src/main/java/bee/extension/JavaExtension.java:108 | removal splices out the first occurrence |
| JavaExtension.RemoveFirst | src/main/java/bee/extension/JavaExtension.java:108 | `List.remove(Object)`: `RemoveFirstCount` and `RemoveFirstAt` prove it takes out the first occurrence, and only it, or changes nothing |
| JavaExtension.PathList.Remove | src/main/java/bee/extension/JavaExtension.java:108 | reports whether the path was present and removes its first occurrence |
| JavaExtension.PathList.Add | src/main/java/bee/extension/JavaExtension.java:110 | appends the path |
| JavaExtension.EnhanceEntryJars | src/main/java/bee/extension/JavaExtension.java:106-110 | an absent archive changes nothing; otherwise one occurrence leaves; when the copy is made, it goes last and the length is kept |
| JavaExtension.EnhanceEntryCopy | src/main/java/bee/extension/JavaExtension.java:106-124 | on success the original is unchanged; the copy has the original's entries, with each targeted class file rewritten and every other entry byte-identical |
| JavaExtension.EnhanceEntry | src/main/java/bee/extension/JavaExtension.java:104-130 | one loop pass; `EnhanceArchive` is proved to do it, and `EnhanceEntryJars`, `EnhanceEntryCopy` and `EnhanceEntryKeepsNonKeys` state its effect on the list and the disk |
| JavaExtension.EnhanceEntryKeepsNonKeys | src/main/java/bee/extension/JavaExtension.java:104-110 | one pass keeps the entries that are not repository archives in their order and appends at most a local library copy after them |
| JavaExtension.EnhanceAllStops | src/main/java/bee/extension/JavaExtension.java:103-134 | an exception ends the loop: later entries are not processed |
| JavaExtension.EnhanceAll | src/main/java/bee/extension/JavaExtension.java:102-136 | the loop up to the first exception; `Enhance` is proved to do it, and the lemmas below state what it keeps |
| JavaExtension.EnhanceAllKeepsNonKeys | src/main/java/bee/extension/JavaExtension.java:104-110 | every entry that is not a repository archive stays on the list, in its order relative to the others; only local library copies come after them |
| JavaExtension.NonKeysPrefix | src/main/java/bee/extension/JavaExtension.java:104-110 | the same for the entries outside any superset of the repository's archives |
| JavaExtension.EnhanceAllKeepsBystanders | src/main/java/bee/extension/JavaExtension.java:104-110 | the entries that are neither repository archives nor local library files are exactly the same list, in the same order, before and after |
| JavaExtension.EnhanceAllKeepsLength | src/main/java/bee/extension/JavaExtension.java:104-110 | a completed `enhance` keeps the list's length |
| JavaExtension.EnhanceWithoutArchives | src/main/java/bee/extension/JavaExtension.java:104-108 | with no repository archive on the list, nothing changes: no copy, no rewrite |
| JavaExtension.JavaExtension.EnhanceArchive | src/main/java/bee/extension/JavaExtension.java:104-130 | one loop pass leaves the list, disk and exception that `EnhanceEntry` describes |
| JavaExtension.JavaExtension.Enhance | src/main/java/bee/extension/JavaExtension.java:102-136 | the whole loop leaves the state `EnhanceAll` describes; on success it returns the same list object; otherwise it returns the exception that stopped it |

## Left out

- `collectJRE` and `enhancedJRE` walk the JRE directory with globs. They are file system I/O and are not modelled.
- `enhanceMethodExtension` (the ASM bytecode rewrite) is the `enhancer` parameter. Its own exceptions on malformed class files are not modelled.
- `jar`, which opens the copy as a zip file system, is not modelled, and neither is its failure on a file that is not a zip. Every archive is a map of entries.
- `Files.copy` with `COPY_ATTRIBUTES`: file attributes are not modelled.
- I/O errors other than a missing original, a taken copy name and a missing class file (permissions, a full disk) are not modelled. Neither is a failure of `Paths.createDirectory`.
- `Paths.getName` is the `nameOf` parameter. `bee.util.Paths` is not part of this model.
- `LocalDateTime.now()` is the `clock` parameter. Years outside 1 to 9999, for which `yyyy` prints a sign or more digits, are not modelled.
- Glob metacharacters (`*`, `?`, `[`, `{`) in an archive name are treated as plain characters by `MatchesPrunePattern`.
- The iteration order of the repository's map and of the `toTable` result is not visible. The model fixes them: the repository's entry order as given, and groups in order of first appearance. The `toTable` order only decides which missing class file is reported and what the copy holds when the loop stops early. The repository's order decides more: the order in which the copies are appended to the list, which clock reading (and so which name) each copy gets, which archive's missing original stops the loop and so which archives are still taken off the list, and whether one archive's prune deletes another archive's fresh copy (an archive named `name-<suffix>` after one named `name`, see `PruneReachesLongerNames`). Every lemma about `enhance` holds for any entry order.
- `JavaExtensionRepository` is not part of this model. `HasExtension` and `HasJREExtension` are its queries as documented: the map is non-empty, and some key is a JRE archive.
- The `ui.talk` and `ui.info` messages are output only and are not modelled. `Show` returns the lines instead.
- `Library.toExternal` (URL building), `getJar` (it calls a `get` that does not exist) and `load`'s empty existence check are not modelled.
- `bee.Version` is not part of this model. Its `toString`, `equals` and `hashCode` are parameters. Since the constructor always creates a Version, the null-version branches of `equals` and `hashCode` are not modelled.
- `JavaText.StringHash`, `JavaText.CompareTo`: characters are Dafny `char`s. This agrees with Java's UTF-16 code units only on the Basic Multilingual Plane.
- `buildDependencyGraph` (remote resolution) is not modelled. The graph is a tree value, so a node shared by several parents is shown as repeated subtrees, and cycles are not modelled.
- Dependency.RenderDepth: the depth statements assume no groupId starts with a tab, since otherwise the indentation cannot be read back from the line.

## Findings

| source | as written | input that shows it | evidently intended | confidence | as-written member | corrected member |
|---|---|---|---|---|---|---|
| src/main/java/bee/repository/Library.java:63 | `load` locates `toPath("jar")`, with no dot before the extension | artifact `a`, group `g`, version `1.0`: the path is `g/a/1.0/a-1.0jar` | `toPath(".jar")`, as `getJar` uses: `g/a/1.0/a-1.0.jar` | high, not executed | Library.LoadAsWrittenMissesJar | Library.Load |
