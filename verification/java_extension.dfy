/**
 * `bee.extension.JavaExtension`: enhances library jars with extension
 * methods. For every archive of the extension repository that appears in
 * the caller's class path, the archive is copied into the project's
 * `local-library` directory under a timestamped name (after older copies
 * are pruned), the class path entry is swapped for the copy, and every
 * class the extension definitions target is rewritten inside the copy.
 *
 * The disk is a map from paths to jars, a jar a map from entry names to
 * bytes. The clock, the files the operating system refuses to delete, the
 * name of an archive and the bytecode rewrite are parameters.
 */
module JavaExtension {
  import opened Timestamp

  datatype Option<T> = None | Some(value: T)

  /** A file: the directory it lies in and its name there. */
  datatype Path = Path(directory: string, fileName: string)

  type Bytes = seq<bv8>

  /** A jar: the bytes of each entry, by entry name. */
  type Archive = map<string, Bytes>

  /** The files on disk. */
  type FileSystem = map<Path, Archive>

  /** A binary class name as `Class.getName()` returns it: dot separated, never a slash. */
  type ClassName = s: string | '/' !in s

  /** One extension method to add to a target class. */
  datatype MethodDefinition = MethodDefinition(targetClass: ClassName, signature: string)

  /** One entry of the repository's archive-to-definitions map. */
  datatype Extension = Extension(archive: Path, definitions: seq<MethodDefinition>)

  /**
   * The extension repository: its archive-to-definitions map, in the order
   * its entry set is iterated, and the archives that belong to the JRE.
   */
  datatype Repository = Repository(methods: seq<Extension>, runtime: set<Path>)

  /** The `IOException`s that `enhance` rethrows. */
  datatype Failure =
    | NoSuchFile(path: Path)                 // the original archive is gone when it is copied
    | FileAlreadyExists(path: Path)          // the copy's name is taken by a file that could not be pruned
    | NoSuchEntry(archive: Path, entry: string)  // a target class has no class file in the jar

  datatype Result<T> = Ok(value: T) | Err(failure: Failure)

  /**
   * What the model does not compute itself: the project's output directory,
   * `Paths.getName`, the clock (the reading taken when the n-th copy is
   * made), the files whose deletion fails, and the bytecode rewrite of
   * `enhanceMethodExtension`.
   */
  datatype Environment = Environment(
    output: string,
    nameOf: Path -> string,
    clock: nat -> Instant,
    locked: set<Path>,
    enhancer: (Bytes, seq<MethodDefinition>) -> Bytes)

  // ---------------------------------------------------------------------
  // hasExtension / hasJREExtension

  /** Some extension is defined. */
  predicate HasExtension(r: Repository) {
    |r.methods| > 0
  }

  /** Some extension is defined for a JRE archive. */
  predicate HasJREExtension(r: Repository) {
    exists i :: 0 <= i < |r.methods| && r.methods[i].archive in r.runtime
  }

  /** A JRE extension is an extension. */
  lemma JREExtensionIsExtension(r: Repository)
    ensures HasJREExtension(r) ==> HasExtension(r)
  {
  }

  // ---------------------------------------------------------------------
  // The class file of a class: clazz.getName().replace('.', '/') + ".class"

  function Slashed(name: string): string {
    if name == [] then [] else Slashed(name[..|name| - 1]) + [if name[|name| - 1] == '.' then '/' else name[|name| - 1]]
  }

  function Dotted(path: string): string {
    if path == [] then [] else Dotted(path[..|path| - 1]) + [if path[|path| - 1] == '/' then '.' else path[|path| - 1]]
  }

  /** The jar entry holding the class file of the named class. */
  function ClassEntry(c: ClassName): (e: string)
    ensures |e| == |c| + 6
    ensures e[|c|..] == ".class"
    ensures '.' !in e[..|c|]
  {
    SlashedHasNoDot(c);
    assert (Slashed(c) + ".class")[..|c|] == Slashed(c);
    Slashed(c) + ".class"
  }

  lemma {:induction false} SlashedHasNoDot(name: string)
    ensures |Slashed(name)| == |name|
    ensures '.' !in Slashed(name)
  {
    if name != [] {
      SlashedHasNoDot(name[..|name| - 1]);
    }
  }

  /** The class a class file entry belongs to. */
  function ClassOfEntry(e: string): string
    requires |e| >= 6
  {
    Dotted(e[..|e| - 6])
  }

  lemma {:induction false} DottedSlashed(name: string)
    requires '/' !in name
    ensures Dotted(Slashed(name)) == name
  {
    if name != [] {
      var init := name[..|name| - 1];
      assert '/' !in init by {
        forall i | 0 <= i < |init| ensures init[i] != '/' {
          assert init[i] == name[i];
        }
      }
      DottedSlashed(init);
      SlashedHasNoDot(init);
      var s := Slashed(name);
      assert s[..|s| - 1] == Slashed(init);
      assert name == init + [name[|name| - 1]];
    }
  }

  /** The class can be read back from its entry name, so distinct classes have distinct entries. */
  lemma ClassEntryRoundTrip(c: ClassName)
    ensures ClassOfEntry(ClassEntry(c)) == c
  {
    var e := ClassEntry(c);
    assert e[..|e| - 6] == Slashed(c);
    DottedSlashed(c);
  }

  lemma ClassEntryInjective(a: ClassName, b: ClassName)
    requires ClassEntry(a) == ClassEntry(b)
    ensures a == b
  {
    ClassEntryRoundTrip(a);
    ClassEntryRoundTrip(b);
  }

  // ---------------------------------------------------------------------
  // manageLocalLibrary

  /** `project.getOutput().resolve("local-library")` */
  function LocalLibrary(output: string): string {
    output + "/local-library"
  }

  /** The glob `name-*.jar`: the prefix `name-`, then anything, then `.jar`. */
  predicate MatchesPrunePattern(name: string, fileName: string) {
    && |fileName| >= |name| + 5
    && fileName[..|name| + 1] == name + "-"
    && fileName[|fileName| - 4..] == ".jar"
  }

  /** `name + "-" + LocalDateTime.now().format(timestamp) + ".jar"` */
  function LocalName(name: string, now: Instant): (f: string)
    ensures |f| == |name| + 19
  {
    name + "-" + Format(now) + ".jar"
  }

  /** A fresh copy is itself an old copy the next time the same archive is managed. */
  lemma LocalNameMatches(name: string, now: Instant)
    ensures MatchesPrunePattern(name, LocalName(name, now))
  {
    var f := LocalName(name, now);
    assert f[..|name| + 1] == name + "-";
    assert f[|f| - 4..] == ".jar";
  }

  /** Copies made at different seconds have different names. */
  lemma LocalNameInjective(name: string, t1: Instant, t2: Instant)
    requires LocalName(name, t1) == LocalName(name, t2)
    ensures t1 == t2
  {
    var f := LocalName(name, t1);
    assert f[|name| + 1..|name| + 15] == Format(t1);
    assert LocalName(name, t2)[|name| + 1..|name| + 15] == Format(t2);
    FormatInjective(t1, t2);
  }

  /**
   * The glob also matches the copies of every archive whose name extends
   * this one after a dash: pruning `asm` deletes the copies of `asm-tree`.
   */
  lemma PruneReachesLongerNames(name: string, suffix: string, now: Instant)
    ensures MatchesPrunePattern(name, LocalName(name + "-" + suffix, now))
  {
    var f := LocalName(name + "-" + suffix, now);
    assert f[..|name| + 1] == name + "-";
    assert f[|f| - 4..] == ".jar";
  }

  /** The files `I.walk(root, name + "-*.jar")` lists. */
  function OldCopies(files: FileSystem, root: string, name: string): set<Path> {
    set p | p in files && p.directory == root && MatchesPrunePattern(name, p.fileName)
  }

  /** The files with the given ones deleted. */
  function Without(files: FileSystem, gone: set<Path>): FileSystem {
    map p | p in files && p !in gone :: files[p]
  }

  /** The disk after the prune loop: every old copy is deleted unless its deletion fails. */
  function Pruned(files: FileSystem, root: string, name: string, locked: set<Path>): FileSystem {
    Without(files, OldCopies(files, root, name) - locked)
  }

  /**
   * `manageLocalLibrary(original)`: prune, then copy the original to a
   * fresh timestamped name (a copy without REPLACE_EXISTING). Returns the
   * disk afterwards and the copy, or the IOException of the copy.
   */
  function Manage(env: Environment, files: FileSystem, original: Path, now: Instant): (r: (FileSystem, Result<Path>))
    ensures r.1.Ok? ==> r.1.value in r.0
  {
    var name := env.nameOf(original);
    var root := LocalLibrary(env.output);
    var pruned := Pruned(files, root, name, env.locked);
    var local := Path(root, LocalName(name, now));
    if original !in pruned then (pruned, Err(NoSuchFile(original)))
    else if local in pruned then (pruned, Err(FileAlreadyExists(local)))
    else (pruned[local := pruned[original]], Ok(local))
  }

  /**
   * The outcome of managing an archive: the copy fails for want of an
   * original exactly when the original is missing or was itself pruned,
   * fails for want of a name exactly when a locked file already has the
   * copy's name, and otherwise puts a byte-identical copy of the original
   * into the local library, leaving the original as it was.
   */
  lemma ManageOutcome(env: Environment, files: FileSystem, original: Path, now: Instant)
    ensures var r := Manage(env, files, original, now);
            var name := env.nameOf(original);
            var root := LocalLibrary(env.output);
            var local := Path(root, LocalName(name, now));
            && (r.1 == Err(NoSuchFile(original)) <==>
                  original !in files || (original in OldCopies(files, root, name) && original !in env.locked))
            && (r.1 == Err(FileAlreadyExists(local)) <==>
                  original in r.0 && local in files && local in env.locked)
            && (r.1.Ok? ==>
                  && r.1.value == local
                  && r.0[local] == files[original]
                  && original in r.0 && r.0[original] == files[original])
  {
    var name := env.nameOf(original);
    var root := LocalLibrary(env.output);
    LocalNameMatches(name, now);
  }

  /**
   * Pruning is confined to the local library's `name-*.jar` files, and
   * after a successful copy the only such files left are the new copy and
   * those whose deletion failed.
   */
  lemma ManageLeavesOneCopy(env: Environment, files: FileSystem, original: Path, now: Instant)
    ensures var r := Manage(env, files, original, now);
            var name := env.nameOf(original);
            var root := LocalLibrary(env.output);
            && (forall p :: p in files && p !in OldCopies(files, root, name) ==> p in r.0 && r.0[p] == files[p])
            && (r.1.Ok? ==> forall p :: p in OldCopies(r.0, root, name) ==> p == r.1.value || p in env.locked)
  {
  }

  // ---------------------------------------------------------------------
  // Events.from(definitions).toTable(def -> def.targetClass)

  /** The definitions that target one class. */
  datatype Group = Group(target: ClassName, definitions: seq<MethodDefinition>)

  /** The definitions of defs that target c, in their order. */
  function DefinitionsFor(defs: seq<MethodDefinition>, c: ClassName): seq<MethodDefinition> {
    if defs == [] then []
    else DefinitionsFor(defs[..|defs| - 1], c) + (if defs[|defs| - 1].targetClass == c then [defs[|defs| - 1]] else [])
  }

  /** d appended to the group of its class, or a new group at the end. */
  function AddToTable(table: seq<Group>, d: MethodDefinition): seq<Group> {
    if table == [] then [Group(d.targetClass, [d])]
    else if table[0].target == d.targetClass then [Group(table[0].target, table[0].definitions + [d])] + table[1..]
    else [table[0]] + AddToTable(table[1..], d)
  }

  /** The definitions grouped by target class, groups in order of first appearance. */
  function ToTable(defs: seq<MethodDefinition>): seq<Group> {
    if defs == [] then [] else AddToTable(ToTable(defs[..|defs| - 1]), defs[|defs| - 1])
  }

  /** The definitions of the group for c, or none. */
  function GroupOf(table: seq<Group>, c: ClassName): seq<MethodDefinition> {
    if table == [] then []
    else if table[0].target == c then table[0].definitions
    else GroupOf(table[1..], c)
  }

  /** No class has two groups. */
  ghost predicate DistinctTargets(table: seq<Group>) {
    forall i, j :: 0 <= i < j < |table| ==> table[i].target != table[j].target
  }

  /** Every group holds a definition. */
  ghost predicate NonEmptyGroups(table: seq<Group>) {
    forall i :: 0 <= i < |table| ==> table[i].definitions != []
  }

  lemma {:induction false} GroupOfIndex(table: seq<Group>, i: nat)
    requires DistinctTargets(table) && i < |table|
    ensures GroupOf(table, table[i].target) == table[i].definitions
  {
    if i > 0 {
      GroupOfIndex(table[1..], i - 1);
    }
  }

  lemma {:induction false} GroupOfAbsent(table: seq<Group>, c: ClassName)
    requires forall i :: 0 <= i < |table| ==> table[i].target != c
    ensures GroupOf(table, c) == []
  {
    if table != [] {
      GroupOfAbsent(table[1..], c);
    }
  }

  lemma {:induction false} AddToTableSpec(table: seq<Group>, d: MethodDefinition)
    requires DistinctTargets(table) && NonEmptyGroups(table)
    ensures var t := AddToTable(table, d);
            && DistinctTargets(t) && NonEmptyGroups(t)
            && (forall c: ClassName :: GroupOf(t, c) == if c == d.targetClass then GroupOf(table, c) + [d] else GroupOf(table, c))
            && (forall i :: 0 <= i < |t| ==> t[i].target == d.targetClass || exists j :: 0 <= j < |table| && table[j].target == t[i].target)
  {
    AddToTableShape(table, d);
    AddToTableGroupOf(table, d);
  }

  /** Adding keeps one non-empty group per class and introduces no class but d's. */
  lemma {:induction false} AddToTableShape(table: seq<Group>, d: MethodDefinition)
    requires DistinctTargets(table) && NonEmptyGroups(table)
    ensures var t := AddToTable(table, d);
            && DistinctTargets(t) && NonEmptyGroups(t)
            && (forall i :: 0 <= i < |t| ==> t[i].target == d.targetClass || exists j :: 0 <= j < |table| && table[j].target == t[i].target)
  {
    if table != [] && table[0].target != d.targetClass {
      AddToTableShape(table[1..], d);
      var t := AddToTable(table, d);
      assert t[1..] == AddToTable(table[1..], d);
      forall i | 0 <= i < |t| ensures t[i].target == d.targetClass || exists j :: 0 <= j < |table| && table[j].target == t[i].target {
        if i > 0 && t[i].target != d.targetClass {
          var j :| 0 <= j < |table[1..]| && table[1..][j].target == t[i].target;
          assert table[j + 1].target == t[i].target;
        }
      }
    } else if table != [] {
      var t := AddToTable(table, d);
      assert t[1..] == table[1..];
    }
  }

  /** Adding appends d to the group of its class and leaves the other groups as they were. */
  lemma {:induction false} AddToTableGroupOf(table: seq<Group>, d: MethodDefinition)
    ensures var t := AddToTable(table, d);
            forall c: ClassName :: GroupOf(t, c) == if c == d.targetClass then GroupOf(table, c) + [d] else GroupOf(table, c)
  {
    if table != [] && table[0].target != d.targetClass {
      AddToTableGroupOf(table[1..], d);
      var t := AddToTable(table, d);
      assert t[1..] == AddToTable(table[1..], d);
    }
  }

  /**
   * `toTable` groups by target class: one group per class that some
   * definition targets, and the group of a class holds exactly that
   * class's definitions, in order.
   */
  lemma {:induction false} ToTableGroups(defs: seq<MethodDefinition>)
    ensures var t := ToTable(defs);
            && DistinctTargets(t) && NonEmptyGroups(t)
            && (forall c: ClassName :: GroupOf(t, c) == DefinitionsFor(defs, c))
  {
    if defs != [] {
      ToTableGroups(defs[..|defs| - 1]);
      AddToTableSpec(ToTable(defs[..|defs| - 1]), defs[|defs| - 1]);
    }
  }

  // ---------------------------------------------------------------------
  // The loop over the groups inside the zip file system

  /**
   * Rewrites the class file of each group in turn with the enhancer. A
   * missing class file stops the loop (`Files.readAllBytes` throws); the
   * entries rewritten before it stay rewritten. Returns the jar and the
   * missing entry, if any.
   */
  function PatchAll(jar: Archive, groups: seq<Group>, enhancer: (Bytes, seq<MethodDefinition>) -> Bytes): (r: (Archive, Option<string>))
    ensures r.0.Keys == jar.Keys
  {
    if groups == [] then (jar, None)
    else
      var (done, missing) := PatchAll(jar, groups[..|groups| - 1], enhancer);
      var g := groups[|groups| - 1];
      var entry := ClassEntry(g.target);
      if missing.Some? then (done, missing)
      else if entry !in done then (done, Some(entry))
      else (done[entry := enhancer(done[entry], g.definitions)], None)
  }

  /** Once a class file was missing, the later groups change nothing. */
  lemma {:induction false} PatchAllStops(jar: Archive, groups: seq<Group>, k: nat, enhancer: (Bytes, seq<MethodDefinition>) -> Bytes)
    requires k <= |groups|
    requires PatchAll(jar, groups[..k], enhancer).1.Some?
    ensures PatchAll(jar, groups, enhancer) == PatchAll(jar, groups[..k], enhancer)
  {
    if k < |groups| {
      assert groups[..|groups| - 1][..k] == groups[..k];
      PatchAllStops(jar, groups[..|groups| - 1], k, enhancer);
      assert groups[..|groups|] == groups;
    } else {
      assert groups[..k] == groups;
    }
  }

  /** Only class files of the groups' classes are written: every other entry passes through byte for byte. */
  lemma {:induction false} PatchAllPassesThrough(jar: Archive, groups: seq<Group>, enhancer: (Bytes, seq<MethodDefinition>) -> Bytes, e: string)
    requires e in jar
    requires forall i :: 0 <= i < |groups| ==> e != ClassEntry(groups[i].target)
    ensures PatchAll(jar, groups, enhancer).0[e] == jar[e]
  {
    if groups != [] {
      PatchAllPassesThrough(jar, groups[..|groups| - 1], enhancer, e);
    }
  }

  /**
   * When no class file is missing and no class has two groups, each
   * group's class file is rewritten exactly once, from its original bytes,
   * with all of the group's definitions.
   */
  lemma {:induction false} PatchAllRewrites(jar: Archive, groups: seq<Group>, enhancer: (Bytes, seq<MethodDefinition>) -> Bytes, i: nat)
    requires DistinctTargets(groups) && i < |groups|
    requires PatchAll(jar, groups, enhancer).1.None?
    ensures ClassEntry(groups[i].target) in jar
    ensures PatchAll(jar, groups, enhancer).0[ClassEntry(groups[i].target)] == enhancer(jar[ClassEntry(groups[i].target)], groups[i].definitions)
  {
    var init := groups[..|groups| - 1];
    var last := |groups| - 1;
    assert DistinctTargets(init);
    forall j | 0 <= j < |init| && j != i ensures ClassEntry(init[j].target) != ClassEntry(groups[i].target) {
      if ClassEntry(init[j].target) == ClassEntry(groups[i].target) {
        ClassEntryInjective(init[j].target, groups[i].target);
      }
    }
    if i < last {
      PatchAllRewrites(jar, init, enhancer, i);
      if ClassEntry(groups[last].target) == ClassEntry(groups[i].target) {
        ClassEntryInjective(groups[last].target, groups[i].target);
      }
    } else {
      forall j | 0 <= j < |init| ensures ClassEntry(init[j].target) != ClassEntry(groups[i].target) {
      }
      PatchAllPassesThrough(jar, init, enhancer, ClassEntry(groups[i].target));
    }
  }

  /** Every entry that is not the class file of a targeted class is copied unchanged. */
  lemma TableRewriteKeeps(jar: Archive, defs: seq<MethodDefinition>, enhancer: (Bytes, seq<MethodDefinition>) -> Bytes, e: string)
    requires e in jar
    requires forall d :: d in defs ==> e != ClassEntry(d.targetClass)
    ensures PatchAll(jar, ToTable(defs), enhancer).0[e] == jar[e]
  {
    var t := ToTable(defs);
    ToTableGroups(defs);
    forall i | 0 <= i < |t| ensures e != ClassEntry(t[i].target) {
      GroupOfIndex(t, i);
      DefinitionsForMember(defs, t[i].target, t[i].definitions[0]);
    }
    PatchAllPassesThrough(jar, t, enhancer, e);
  }

  /**
   * When the rewrite succeeds, the class file of every targeted class was
   * present and now holds the enhancer's output for that class's original
   * bytes and all of its definitions.
   */
  lemma TableRewriteClass(jar: Archive, defs: seq<MethodDefinition>, enhancer: (Bytes, seq<MethodDefinition>) -> Bytes, d: MethodDefinition)
    requires d in defs
    requires PatchAll(jar, ToTable(defs), enhancer).1.None?
    ensures ClassEntry(d.targetClass) in jar
    ensures PatchAll(jar, ToTable(defs), enhancer).0[ClassEntry(d.targetClass)]
         == enhancer(jar[ClassEntry(d.targetClass)], DefinitionsFor(defs, d.targetClass))
  {
    var t := ToTable(defs);
    var i := GroupIndex(defs, d);
    ToTableGroups(defs);
    PatchAllRewrites(jar, t, enhancer, i);
  }

  /** The position of the group a definition lands in; that group holds all of its class's definitions. */
  lemma GroupIndex(defs: seq<MethodDefinition>, d: MethodDefinition) returns (i: nat)
    requires d in defs
    ensures i < |ToTable(defs)|
    ensures ToTable(defs)[i].target == d.targetClass
    ensures ToTable(defs)[i].definitions == DefinitionsFor(defs, d.targetClass)
  {
    var t := ToTable(defs);
    ToTableGroups(defs);
    DefinitionsForHas(defs, d);
    if forall j :: 0 <= j < |t| ==> t[j].target != d.targetClass {
      GroupOfAbsent(t, d.targetClass);
      assert false;
    }
    i :| 0 <= i < |t| && t[i].target == d.targetClass;
    GroupOfIndex(t, i);
  }

  lemma {:induction false} DefinitionsForMember(defs: seq<MethodDefinition>, c: ClassName, x: MethodDefinition)
    requires x in DefinitionsFor(defs, c)
    ensures x in defs && x.targetClass == c
  {
    var init := defs[..|defs| - 1];
    if x in DefinitionsFor(init, c) {
      DefinitionsForMember(init, c, x);
      assert x in defs by { var k :| 0 <= k < |init| && init[k] == x; assert defs[k] == x; }
    }
  }

  lemma {:induction false} DefinitionsForHas(defs: seq<MethodDefinition>, d: MethodDefinition)
    requires d in defs
    ensures DefinitionsFor(defs, d.targetClass) != []
  {
    var init := defs[..|defs| - 1];
    if defs[|defs| - 1] != d {
      assert d in init by { var k :| 0 <= k < |defs| && defs[k] == d; assert init[k] == d; }
      DefinitionsForHas(init, d);
    }
  }

  // ---------------------------------------------------------------------
  // enhance

  /** `List.remove(Object)`: the first occurrence of x taken out. */
  function RemoveFirst(s: seq<Path>, x: Path): seq<Path> {
    if s == [] then []
    else if s[0] == x then s[1..]
    else [s[0]] + RemoveFirst(s[1..], x)
  }

  /** Removing takes out one occurrence of x when there is one and changes nothing otherwise. */
  lemma {:induction false} RemoveFirstCount(s: seq<Path>, x: Path)
    ensures x in s ==> multiset(RemoveFirst(s, x)) == multiset(s) - multiset{x}
    ensures x !in s ==> RemoveFirst(s, x) == s
  {
    if s != [] {
      RemoveFirstCount(s[1..], x);
      assert s == [s[0]] + s[1..];
    }
    if x in s {
      RemoveFirstRestores(s, x);
    }
  }

  /** Putting the removed occurrence back gives the original multiset. */
  lemma {:induction false} RemoveFirstRestores(s: seq<Path>, x: Path)
    requires x in s
    ensures multiset(RemoveFirst(s, x)) + multiset{x} == multiset(s)
  {
    assert s == [s[0]] + s[1..];
    if s[0] != x {
      RemoveFirstRestores(s[1..], x);
      assert RemoveFirst(s, x) == [s[0]] + RemoveFirst(s[1..], x);
    }
  }

  /** The first occurrence of x is at i: removing it splices around i. */
  lemma {:induction false} RemoveFirstAt(s: seq<Path>, x: Path, i: nat)
    requires i < |s| && s[i] == x && x !in s[..i]
    ensures RemoveFirst(s, x) == s[..i] + s[i + 1..]
  {
    if i > 0 {
      assert s[1..][..i - 1] == s[..i][1..];
      RemoveFirstAt(s[1..], x, i - 1);
      assert s[..i] == [s[0]] + s[1..][..i - 1];
    }
  }

  /** The class path, the disk, and how many copies have been made (which clock reading comes next). */
  datatype World = World(jars: seq<Path>, files: FileSystem, copies: nat)

  /** The state `enhance` leaves behind and the exception it throws, if any. */
  datatype Run = Run(world: World, failure: Option<Failure>)

  /**
   * One pass of the loop in `enhance`: an archive that is not on the class
   * path is skipped; otherwise it is taken off, a fresh copy is made and
   * appended, and the copy's classes are rewritten.
   */
  function EnhanceEntry(env: Environment, w: World, ext: Extension): Run {
    if ext.archive !in w.jars then Run(w, None)
    else
      var jars := RemoveFirst(w.jars, ext.archive);
      var (files, local) := Manage(env, w.files, ext.archive, env.clock(w.copies));
      match local
      case Err(f) => Run(World(jars, files, w.copies + 1), Some(f))
      case Ok(copy) =>
        var (jar, missing) := PatchAll(files[copy], ToTable(ext.definitions), env.enhancer);
        Run(World(jars + [copy], files[copy := jar], w.copies + 1),
            if missing.Some? then Some(NoSuchEntry(copy, missing.value)) else None)
  }

  /** The loop of `enhance` over the repository's entries, up to the first exception. */
  function EnhanceAll(env: Environment, w: World, exts: seq<Extension>): Run {
    if exts == [] then Run(w, None)
    else
      var r := EnhanceAll(env, w, exts[..|exts| - 1]);
      if r.failure.Some? then r else EnhanceEntry(env, r.world, exts[|exts| - 1])
  }

  /** An exception ends the loop: the later entries are not looked at. */
  lemma {:induction false} EnhanceAllStops(env: Environment, w: World, exts: seq<Extension>, k: nat)
    requires k <= |exts|
    requires EnhanceAll(env, w, exts[..k]).failure.Some?
    ensures EnhanceAll(env, w, exts) == EnhanceAll(env, w, exts[..k])
  {
    if k < |exts| {
      assert exts[..|exts| - 1][..k] == exts[..k];
      EnhanceAllStops(env, w, exts[..|exts| - 1], k);
    } else {
      assert exts[..k] == exts;
    }
  }

  /**
   * One entry's effect on the class path. An archive that is not on it
   * leaves everything as it was. Otherwise one occurrence of the archive
   * is taken out and, unless the copy cannot be made, the copy (a
   * `name-<timestamp>.jar` in the local library) is appended at the end;
   * the class path keeps its length exactly when the copy is made.
   */
  lemma EnhanceEntryJars(env: Environment, w: World, ext: Extension)
    ensures var r := EnhanceEntry(env, w, ext);
            && (ext.archive !in w.jars ==> r == Run(w, None))
            && (ext.archive in w.jars ==>
                  var copy := Path(LocalLibrary(env.output), LocalName(env.nameOf(ext.archive), env.clock(w.copies)));
                  && r.world.copies == w.copies + 1
                  && ((r.failure.None? || r.failure.value.NoSuchEntry?) <==> |r.world.jars| == |w.jars|)
                  && (|r.world.jars| == |w.jars| ==>
                        r.world.jars[|w.jars| - 1] == copy &&
                        multiset(r.world.jars) == multiset(w.jars) - multiset{ext.archive} + multiset{copy})
                  && (|r.world.jars| != |w.jars| ==>
                        multiset(r.world.jars) == multiset(w.jars) - multiset{ext.archive}))
  {
    RemoveFirstCount(w.jars, ext.archive);
    if ext.archive in w.jars {
      var jars := RemoveFirst(w.jars, ext.archive);
      assert |multiset(jars)| == |multiset(w.jars)| - 1;
      assert |jars| == |w.jars| - 1;
      ManageOutcome(env, w.files, ext.archive, env.clock(w.copies));
    }
  }

  /**
   * One entry's effect on the disk when nothing is thrown: the original
   * is left as it was, and the copy holds the original's entries, with the
   * class file of every targeted class replaced by the enhancer's output
   * for it and every other entry byte-identical.
   */
  lemma EnhanceEntryCopy(env: Environment, w: World, ext: Extension)
    requires ext.archive in w.jars
    ensures var r := EnhanceEntry(env, w, ext);
            var copy := Path(LocalLibrary(env.output), LocalName(env.nameOf(ext.archive), env.clock(w.copies)));
            r.failure.None? ==>
              && ext.archive in w.files && ext.archive in r.world.files && copy in r.world.files
              && r.world.files[ext.archive] == w.files[ext.archive]
              && r.world.files[copy].Keys == w.files[ext.archive].Keys
              && (forall e :: e in w.files[ext.archive] && (forall d :: d in ext.definitions ==> e != ClassEntry(d.targetClass)) ==>
                    r.world.files[copy][e] == w.files[ext.archive][e])
              && (forall d :: d in ext.definitions ==>
                    ClassEntry(d.targetClass) in w.files[ext.archive] &&
                    r.world.files[copy][ClassEntry(d.targetClass)]
                      == env.enhancer(w.files[ext.archive][ClassEntry(d.targetClass)], DefinitionsFor(ext.definitions, d.targetClass)))
  {
    var now := env.clock(w.copies);
    var copy := Path(LocalLibrary(env.output), LocalName(env.nameOf(ext.archive), now));
    ManageOutcome(env, w.files, ext.archive, now);
    var (files, local) := Manage(env, w.files, ext.archive, now);
    if local.Ok? {
      var original := files[copy];
      assert original == w.files[ext.archive];
      var r := PatchAll(original, ToTable(ext.definitions), env.enhancer);
      if r.1.None? {
        forall e | e in original && (forall d :: d in ext.definitions ==> e != ClassEntry(d.targetClass))
          ensures r.0[e] == original[e]
        {
          TableRewriteKeeps(original, ext.definitions, env.enhancer, e);
        }
        forall d | d in ext.definitions
          ensures ClassEntry(d.targetClass) in original
          ensures r.0[ClassEntry(d.targetClass)] == env.enhancer(original[ClassEntry(d.targetClass)], DefinitionsFor(ext.definitions, d.targetClass))
        {
          TableRewriteClass(original, ext.definitions, env.enhancer, d);
        }
      }
    }
  }

  /** The archives of the repository. */
  function Keys(exts: seq<Extension>): set<Path> {
    set i | 0 <= i < |exts| :: exts[i].archive
  }

  /** The entries of jars that drop does not select, in their order. */
  function Dropping(jars: seq<Path>, drop: Path -> bool): (r: seq<Path>)
    ensures |r| <= |jars|
  {
    if jars == [] then []
    else
      var p := jars[|jars| - 1];
      Dropping(jars[..|jars| - 1], drop) + (if drop(p) then [] else [p])
  }

  function InKeys(keys: set<Path>): Path -> bool {
    (p: Path) => p in keys
  }

  function InDirectory(root: string): Path -> bool {
    (p: Path) => p.directory == root
  }

  /** The class path entries that are not repository archives, in their order. */
  function NonKeys(jars: seq<Path>, keys: set<Path>): seq<Path> {
    Dropping(jars, InKeys(keys))
  }

  /** The class path entries `enhance` leaves in place: neither repository archives nor local copies. */
  function Bystanders(jars: seq<Path>, keys: set<Path>, root: string): seq<Path> {
    Dropping(NonKeys(jars, keys), InDirectory(root))
  }

  lemma {:induction false} DroppingAppend(a: seq<Path>, b: seq<Path>, drop: Path -> bool)
    ensures Dropping(a + b, drop) == Dropping(a, drop) + Dropping(b, drop)
  {
    if b == [] {
      assert a + b == a;
    } else {
      DroppingAppend(a, b[..|b| - 1], drop);
      assert (a + b)[..|a + b| - 1] == a + b[..|b| - 1];
    }
  }

  /** Taking out an entry that is dropped anyway changes nothing. */
  lemma {:induction false} DroppingRemove(s: seq<Path>, x: Path, drop: Path -> bool)
    requires drop(x)
    ensures Dropping(RemoveFirst(s, x), drop) == Dropping(s, drop)
  {
    if s != [] {
      DroppingRemove(s[1..], x, drop);
      DroppingAppend([s[0]], s[1..], drop);
      assert s == [s[0]] + s[1..];
      if s[0] != x {
        DroppingAppend([s[0]], RemoveFirst(s[1..], x), drop);
      } else {
        assert Dropping([s[0]], drop) == [] by {
          assert [s[0]][..0] == [];
        }
      }
    }
  }

  /** A list whose every entry is dropped leaves nothing. */
  lemma {:induction false} DroppingAll(s: seq<Path>, drop: Path -> bool)
    requires forall i :: 0 <= i < |s| ==> drop(s[i])
    ensures Dropping(s, drop) == []
  {
    if s != [] {
      DroppingAll(s[..|s| - 1], drop);
    }
  }

  /** after starts with before, and whatever follows is in the local library. */
  predicate KeptThenCopies(before: seq<Path>, after: seq<Path>, root: string) {
    && before <= after
    && forall i :: |before| <= i < |after| ==> after[i].directory == root
  }

  lemma KeptThenCopiesTransitive(a: seq<Path>, b: seq<Path>, c: seq<Path>, root: string)
    requires KeptThenCopies(a, b, root) && KeptThenCopies(b, c, root)
    ensures KeptThenCopies(a, c, root)
  {
    forall i | |a| <= i < |c| ensures c[i].directory == root {
      if i < |b| {
        assert c[i] == b[i];
      }
    }
  }

  /** One entry keeps the other entries in order and appends at most its local copy. */
  lemma EnhanceEntryKeepsNonKeys(env: Environment, w: World, ext: Extension, keys: set<Path>)
    requires ext.archive in keys
    ensures KeptThenCopies(NonKeys(w.jars, keys), NonKeys(EnhanceEntry(env, w, ext).world.jars, keys),
                           LocalLibrary(env.output))
  {
    if ext.archive in w.jars {
      DroppingRemove(w.jars, ext.archive, InKeys(keys));
      var jars := RemoveFirst(w.jars, ext.archive);
      var (files, local) := Manage(env, w.files, ext.archive, env.clock(w.copies));
      var after := EnhanceEntry(env, w, ext).world.jars;
      if local.Ok? {
        ManageOutcome(env, w.files, ext.archive, env.clock(w.copies));
        assert after == jars + [local.value];
        DroppingAppend(jars, [local.value], InKeys(keys));
        assert [local.value][..0] == [];
      } else {
        assert after == jars;
      }
    }
  }

  /**
   * Every class path entry that is not a repository archive keeps its place
   * relative to the others, whatever `enhance` does and wherever it stops:
   * they come first, in their order, and only local library copies follow.
   */
  lemma EnhanceAllKeepsNonKeys(env: Environment, w: World, exts: seq<Extension>)
    ensures var before := NonKeys(w.jars, Keys(exts));
            var after := NonKeys(EnhanceAll(env, w, exts).world.jars, Keys(exts));
            && before <= after
            && forall i :: |before| <= i < |after| ==> after[i].directory == LocalLibrary(env.output)
  {
    NonKeysPrefix(env, w, exts, Keys(exts));
  }

  /** The same for any superset of the entries' archives. */
  lemma {:induction false} NonKeysPrefix(env: Environment, w: World, exts: seq<Extension>, keys: set<Path>)
    requires Keys(exts) <= keys
    ensures KeptThenCopies(NonKeys(w.jars, keys), NonKeys(EnhanceAll(env, w, exts).world.jars, keys),
                           LocalLibrary(env.output))
  {
    var root := LocalLibrary(env.output);
    if exts != [] {
      var init := exts[..|exts| - 1];
      var ext := exts[|exts| - 1];
      assert Keys(init) <= Keys(exts) by {
        forall p | p in Keys(init) ensures p in Keys(exts) {
          var i :| 0 <= i < |init| && init[i].archive == p;
          assert exts[i].archive == p;
        }
      }
      NonKeysPrefix(env, w, init, keys);
      var r := EnhanceAll(env, w, init);
      if r.failure.None? {
        assert ext.archive in Keys(exts) by { assert exts[|exts| - 1].archive == ext.archive; }
        EnhanceEntryKeepsNonKeys(env, r.world, ext, keys);
        KeptThenCopiesTransitive(NonKeys(w.jars, keys), NonKeys(r.world.jars, keys),
                                 NonKeys(EnhanceEntry(env, r.world, ext).world.jars, keys), root);
      }
    }
  }

  /**
   * The class path entries that are neither repository archives nor local
   * copies are exactly the same list, in the same order, whatever
   * `enhance` does and wherever it stops.
   */
  lemma EnhanceAllKeepsBystanders(env: Environment, w: World, exts: seq<Extension>)
    ensures Bystanders(EnhanceAll(env, w, exts).world.jars, Keys(exts), LocalLibrary(env.output))
         == Bystanders(w.jars, Keys(exts), LocalLibrary(env.output))
  {
    var root := LocalLibrary(env.output);
    NonKeysPrefix(env, w, exts, Keys(exts));
    CopiesLeaveBystanders(NonKeys(w.jars, Keys(exts)), NonKeys(EnhanceAll(env, w, exts).world.jars, Keys(exts)), root);
  }

  /** Appending only local library files adds no entry outside the local library. */
  lemma CopiesLeaveBystanders(before: seq<Path>, after: seq<Path>, root: string)
    requires KeptThenCopies(before, after, root)
    ensures Dropping(after, InDirectory(root)) == Dropping(before, InDirectory(root))
  {
    var copies := after[|before|..];
    assert after == before + copies;
    DroppingAppend(before, copies, InDirectory(root));
    forall i | 0 <= i < |copies| ensures InDirectory(root)(copies[i]) {
      assert copies[i] == after[|before| + i];
    }
    DroppingAll(copies, InDirectory(root));
  }

  /** When `enhance` completes, the class path has exactly as many entries as before. */
  lemma {:induction false} EnhanceAllKeepsLength(env: Environment, w: World, exts: seq<Extension>)
    requires EnhanceAll(env, w, exts).failure.None?
    ensures |EnhanceAll(env, w, exts).world.jars| == |w.jars|
  {
    if exts != [] {
      var init := exts[..|exts| - 1];
      EnhanceAllKeepsLength(env, w, init);
      EnhanceEntryJars(env, EnhanceAll(env, w, init).world, exts[|exts| - 1]);
    }
  }

  /**
   * With no repository archive on the class path (in particular with no
   * extension at all) `enhance` changes nothing: no copy, no rewrite.
   */
  lemma {:induction false} EnhanceWithoutArchives(env: Environment, w: World, exts: seq<Extension>)
    requires forall i :: 0 <= i < |exts| ==> exts[i].archive !in w.jars
    ensures EnhanceAll(env, w, exts) == Run(w, None)
  {
    if exts != [] {
      EnhanceWithoutArchives(env, w, exts[..|exts| - 1]);
    }
  }

  lemma NoExtensionChangesNothing(env: Environment, w: World, r: Repository)
    requires !HasExtension(r)
    ensures EnhanceAll(env, w, r.methods) == Run(w, None)
  {
    EnhanceWithoutArchives(env, w, r.methods);
  }

  // ---------------------------------------------------------------------
  // The objects

  /** The caller's `List<Path>`, which `enhance` changes in place. */
  class PathList {
    var items: seq<Path>

    constructor(items: seq<Path>)
      ensures this.items == items
    {
      this.items := items;
    }

    /** `remove(Object)`: takes out the first occurrence, reporting whether there was one. */
    method Remove(x: Path) returns (found: bool)
      modifies this
      ensures found <==> x in old(items)
      ensures items == RemoveFirst(old(items), x)
    {
      var i := 0;
      while i < |items| && items[i] != x
        invariant 0 <= i <= |items|
        invariant x !in items[..i]
      {
        assert items[..i + 1] == items[..i] + [items[i]];
        i := i + 1;
      }
      if i == |items| {
        assert items[..i] == items;
        RemoveFirstCount(items, x);
        found := false;
      } else {
        RemoveFirstAt(items, x, i);
        items := items[..i] + items[i + 1..];
        found := true;
      }
    }

    /** `add(Object)`: appends. */
    method Add(x: Path)
      modifies this
      ensures items == old(items) + [x]
    {
      items := items + [x];
    }
  }

  /** The enhancer of one project: the repository is fixed, the disk changes. */
  class JavaExtension {
    const repository: Repository
    const env: Environment
    /** The disk as the enhancer sees it. */
    var files: FileSystem
    /** The number of local copies made so far. */
    var copies: nat

    constructor(repository: Repository, env: Environment, files: FileSystem)
      ensures this.repository == repository && this.env == env
      ensures this.files == files && copies == 0
    {
      this.repository := repository;
      this.env := env;
      this.files := files;
      copies := 0;
    }

    /**
     * `manageLocalLibrary(original)`: tries to delete each old copy, ignoring
     * failed deletions, then copies the original to a fresh timestamped name.
     */
    method ManageLocalLibrary(original: Path) returns (local: Result<Path>)
      modifies this
      ensures (files, local) == Manage(env, old(files), original, env.clock(old(copies)))
      ensures copies == old(copies) + 1
    {
      var name := env.nameOf(original);
      var root := LocalLibrary(env.output);
      var walked := OldCopies(files, root, name);
      var pending := walked;
      ghost var start := files;
      while pending != {}
        invariant pending <= walked
        invariant files == Without(start, (walked - pending) - env.locked)
        invariant copies == old(copies)
        decreases pending
      {
        var path :| path in pending;
        if path !in env.locked {
          // I.delete(path) succeeds
          files := files - {path};
          assert files == Without(start, (walked - (pending - {path})) - env.locked);
        }
        pending := pending - {path};
      }
      assert files == Pruned(start, root, name, env.locked);
      var now := env.clock(copies);
      copies := copies + 1;
      var target := Path(root, LocalName(name, now));
      if original !in files {
        local := Err(NoSuchFile(original));
      } else if target in files {
        local := Err(FileAlreadyExists(target));
      } else {
        files := files[target := files[original]];
        local := Ok(target);
      }
    }

    /**
     * The loop over the definition groups with the copy open as a zip file
     * system: reads each class file, rewrites it, writes it back. A missing
     * class file ends the loop; closing the zip keeps what was written.
     */
    method RewriteClasses(copy: Path, groups: seq<Group>) returns (missing: Option<string>)
      requires copy in files
      modifies this
      ensures copy in files
      ensures (files[copy], missing) == PatchAll(old(files)[copy], groups, env.enhancer)
      ensures files == old(files)[copy := files[copy]]
      ensures copies == old(copies)
    {
      var zip := files[copy];
      ghost var original := zip;
      for i := 0 to |groups|
        invariant (zip, None) == PatchAll(original, groups[..i], env.enhancer)
      {
        assert groups[..i + 1][..i] == groups[..i];
        var entry := ClassEntry(groups[i].target);
        if entry !in zip {
          missing := Some(entry);
          files := files[copy := zip];
          PatchAllStops(original, groups, i + 1, env.enhancer);
          return;
        }
        zip := zip[entry := env.enhancer(zip[entry], groups[i].definitions)];
      }
      assert groups[..|groups|] == groups;
      missing := None;
      files := files[copy := zip];
    }

    /**
     * The body of the loop in `enhance` for one repository entry: if the
     * archive is on the class path, swap it for a fresh copy and rewrite
     * the copy's classes.
     */
    method EnhanceArchive(jars: PathList, ext: Extension) returns (failure: Option<Failure>)
      modifies this, jars
      ensures Run(World(jars.items, files, copies), failure)
           == EnhanceEntry(env, World(old(jars.items), old(files), old(copies)), ext)
    {
      ghost var before := World(jars.items, files, copies);
      var found := jars.Remove(ext.archive);
      RemoveFirstCount(before.jars, ext.archive);
      if !found {
        return None;
      }
      var local := ManageLocalLibrary(ext.archive);
      if local.Err? {
        return Some(local.failure);
      }
      jars.Add(local.value);
      var missing := RewriteClasses(local.value, ToTable(ext.definitions));
      if missing.Some? {
        return Some(NoSuchEntry(local.value, missing.value));
      }
      return None;
    }

    /**
     * `enhance(jars)`: for each archive of the repository found on the class
     * path, replaces it by a fresh enhanced copy at the end of the list.
     * Returns the same list, or the exception that stopped the loop.
     */
    method Enhance(jars: PathList) returns (result: Result<PathList>)
      modifies this, jars
      ensures var run := EnhanceAll(env, World(old(jars.items), old(files), old(copies)), repository.methods);
              && World(jars.items, files, copies) == run.world
              && (result.Ok? <==> run.failure.None?)
              && (result.Ok? ==> result.value == jars)
              && (result.Err? ==> run.failure == Some(result.failure))
    {
      var methods := repository.methods;
      ghost var start := World(jars.items, files, copies);
      for k := 0 to |methods|
        invariant EnhanceAll(env, start, methods[..k]) == Run(World(jars.items, files, copies), None)
      {
        assert methods[..k + 1][..k] == methods[..k];
        var failure := EnhanceArchive(jars, methods[k]);
        if failure.Some? {
          EnhanceAllStops(env, start, methods, k + 1);
          return Err(failure.value);
        }
      }
      assert methods[..|methods|] == methods;
      return Ok(jars);
    }
  }
}
