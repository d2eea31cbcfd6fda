/**
 * `bee.repository.Library`: an immutable artifact coordinate (artifact,
 * group, version) with its repository path, `equals`, `hashCode` and
 * `toString`.
 *
 * `bee.Version` is not part of this model. A version is kept as the string
 * it was built from, and its `toString`, `equals` and `hashCode` are passed
 * in as functions wherever a Library method calls them.
 */
module Library {
  import opened JavaText

  /** A Java `String` reference: null, or a sequence of characters. */
  datatype JString = Null | Str(chars: string)

  /** How `StringBuilder.append(String)` renders a possibly-null string. */
  function Text(s: JString): string {
    match s
    case Null => "null"
    case Str(chars) => chars
  }

  /** A `bee.Version`, made by `new Version(spec)`. */
  datatype Version = Version(spec: JString)

  /** The three final fields of a Library. */
  datatype Library = Library(artifact: JString, group: JString, version: Version)

  /**
   * The constructor `Library(artifact, group, version)`: artifact and group are
   * stored as given, the version string is wrapped in a new Version. The
   * fields are final, so a Library is a value.
   */
  function New(artifact: JString, group: JString, version: JString): (l: Library)
    ensures l.artifact == artifact && l.group == group
    ensures l.version.spec == version
  {
    Library(artifact, group, Version(version))
  }

  // ---------------------------------------------------------------------
  // Paths

  /** The parts of s between its '/' separators, in order. */
  function Segments(s: string): (r: seq<string>)
    ensures |r| >= 1
  {
    if s == [] then [""]
    else
      var rest := Segments(s[1..]);
      if s[0] == '/' then [""] + rest else [[s[0]] + rest[0]] + rest[1..]
  }

  lemma {:induction false} SegmentsOfPlain(x: string)
    requires '/' !in x
    ensures Segments(x) == [x]
  {
    if x != [] {
      SegmentsOfPlain(x[1..]);
      assert [x[0]] + x[1..] == x;
    }
  }

  lemma {:induction false} SegmentsJoin(x: string, y: string)
    requires '/' !in x
    ensures Segments(x + "/" + y) == [x] + Segments(y)
  {
    var s := x + "/" + y;
    if x == [] {
      assert s[1..] == y;
    } else {
      assert s[1..] == x[1..] + "/" + y;
      SegmentsJoin(x[1..], y);
      assert [x[0]] + x[1..] == x;
    }
  }

  /**
   * `toPath(extension)`: group/artifact/version/artifact-version followed by
   * the extension, with '/' as the only separator.
   */
  function ToPath(l: Library, extension: string, versionText: Version -> string): (p: string)
    ensures |p| >= |extension| && p[|p| - |extension|..] == extension
    ensures |p| > |Text(l.group)| && p[..|Text(l.group)| + 1] == Text(l.group) + "/"
  {
    var v := versionText(l.version);
    var p := Text(l.group) + "/" + Text(l.artifact) + "/" + v + "/" + Text(l.artifact) + "-" + v + extension;
    assert p == (Text(l.group) + "/") + (Text(l.artifact) + "/" + v + "/" + Text(l.artifact) + "-" + v) + extension;
    p
  }

  /** `toString()`: artifact, a dash, then the version. */
  function ToString(l: Library, versionText: Version -> string): (s: string)
    ensures |s| == |Text(l.artifact)| + 1 + |versionText(l.version)|
    ensures s[..|Text(l.artifact)|] == Text(l.artifact) && s[|Text(l.artifact)|] == '-'
    ensures s[|Text(l.artifact)| + 1..] == versionText(l.version)
  {
    Text(l.artifact) + "-" + versionText(l.version)
  }

  /**
   * When no field text and not the extension holds a '/', the path splits
   * back into group, artifact, version and the file name, which is
   * `toString()` followed by the extension.
   */
  lemma ToPathSegments(l: Library, extension: string, versionText: Version -> string)
    requires '/' !in Text(l.group) && '/' !in Text(l.artifact)
    requires '/' !in versionText(l.version) && '/' !in extension
    ensures Segments(ToPath(l, extension, versionText))
         == [Text(l.group), Text(l.artifact), versionText(l.version), ToString(l, versionText) + extension]
  {
    var g, a, v := Text(l.group), Text(l.artifact), versionText(l.version);
    var file := ToString(l, versionText) + extension;
    assert file == a + "-" + v + extension;
    assert ToPath(l, extension, versionText) == g + "/" + (a + "/" + (v + "/" + file));
    FourSegments(g, a, v, file);
  }

  lemma FourSegments(g: string, a: string, v: string, file: string)
    requires '/' !in g && '/' !in a && '/' !in v && '/' !in file
    ensures Segments(g + "/" + (a + "/" + (v + "/" + file))) == [g, a, v, file]
  {
    SegmentsOfPlain(file);
    SegmentsJoin(v, file);
    SegmentsJoin(a, v + "/" + file);
    SegmentsJoin(g, a + "/" + (v + "/" + file));
  }

  /** Under the same condition, the path determines the rendered coordinate. */
  lemma ToPathInjective(l: Library, m: Library, extension: string, versionText: Version -> string)
    requires '/' !in Text(l.group) && '/' !in Text(l.artifact) && '/' !in versionText(l.version)
    requires '/' !in Text(m.group) && '/' !in Text(m.artifact) && '/' !in versionText(m.version)
    requires '/' !in extension
    requires ToPath(l, extension, versionText) == ToPath(m, extension, versionText)
    ensures Text(l.group) == Text(m.group) && Text(l.artifact) == Text(m.artifact)
    ensures versionText(l.version) == versionText(m.version)
  {
    ToPathSegments(l, extension, versionText);
    ToPathSegments(m, extension, versionText);
  }

  /** A `java.io.File` made by `new File(parent, child)`. */
  datatype Location = Location(parent: string, child: string)

  /**
   * `toInternal(extension)`: the library's place in the local repository,
   * the repository root resolved with exactly `toPath(extension)`.
   */
  function ToInternal(repository: string, l: Library, extension: string, versionText: Version -> string): (f: Location)
    ensures f.parent == repository
    ensures f.child == ToPath(l, extension, versionText)
  {
    Location(repository, ToPath(l, extension, versionText))
  }

  /** `load(repositories)` as written: it asks `toPath` for the extension "jar", without the dot. */
  function LoadAsWritten(repository: string, l: Library, versionText: Version -> string): (f: Location)
    ensures f == ToInternal(repository, l, "jar", versionText)
  {
    ToInternal(repository, l, "jar", versionText)
  }

  /**
   * The as-written location is never the archive's canonical `.jar` path:
   * it is one character shorter, and its name ends `<artifact>-<version>jar`
   * with no dot before the extension.
   */
  lemma LoadAsWrittenMissesJar(repository: string, l: Library, versionText: Version -> string)
    ensures LoadAsWritten(repository, l, versionText).child != ToPath(l, ".jar", versionText)
    ensures |LoadAsWritten(repository, l, versionText).child| + 1 == |ToPath(l, ".jar", versionText)|
    ensures var c := LoadAsWritten(repository, l, versionText).child;
            var tail := Text(l.artifact) + "-" + versionText(l.version) + "jar";
            |c| >= |tail| && c[|c| - |tail|..] == tail
  {
    var v := versionText(l.version);
    var c := LoadAsWritten(repository, l, versionText).child;
    var head := Text(l.group) + "/" + Text(l.artifact) + "/" + v + "/";
    var tail := Text(l.artifact) + "-" + v + "jar";
    assert c == head + tail;
  }

  /** `load(repositories)` as intended: the local jar at the canonical `.jar` path. */
  function Load(repository: string, l: Library, versionText: Version -> string): (f: Location)
    ensures f.parent == repository
    ensures f.child == ToPath(l, ".jar", versionText)
    ensures f.child[|f.child| - 4..] == ".jar"
  {
    ToInternal(repository, l, ".jar", versionText)
  }

  // ---------------------------------------------------------------------
  // equals and hashCode

  /** A non-null reference to a Library object. Equal references are the same object. */
  datatype Reference = Reference(address: nat, library: Library)

  /** The argument of `equals(Object)`. */
  datatype Object = NullRef | LibraryObject(ref: Reference) | OtherClass(address: nat)

  /** `String.equals(Object)` called on a non-null string. */
  function StringEquals(s: string, other: JString): bool {
    other.Str? && other.chars == s
  }

  /** Two possibly-null strings that are both null or equal strings. */
  predicate NullSafeEqual(a: JString, b: JString) {
    a == b
  }

  /**
   * `equals(Object)`: the same object, or else another Library whose
   * artifact, group and version are pairwise equal, two nulls counting as
   * equal. Null and objects of other classes are never equal.
   */
  function Equals(self: Reference, obj: Object, versionEquals: (Version, Version) -> bool): (r: bool)
    ensures obj.NullRef? ==> !r
    ensures obj.OtherClass? ==> !r
    ensures obj == LibraryObject(self) ==> r
    ensures obj.LibraryObject? && obj.ref != self ==>
      (r <==> (NullSafeEqual(self.library.artifact, obj.ref.library.artifact)
               && NullSafeEqual(self.library.group, obj.ref.library.group)
               && versionEquals(self.library.version, obj.ref.library.version)))
  {
    if obj.LibraryObject? && obj.ref == self then true
    else if obj.NullRef? then false
    else if obj.OtherClass? then false
    else
      var me := self.library;
      var other := obj.ref.library;
      if me.artifact.Null? && other.artifact != Null then false
      else if me.artifact.Str? && !StringEquals(me.artifact.chars, other.artifact) then false
      else if me.group.Null? && other.group != Null then false
      else if me.group.Str? && !StringEquals(me.group.chars, other.group) then false
      else if !versionEquals(me.version, other.version) then false
      else true
  }

  /** `equals` is symmetric when `Version.equals` is. */
  lemma EqualsSymmetric(a: Reference, b: Reference, versionEquals: (Version, Version) -> bool)
    requires forall x, y :: versionEquals(x, y) ==> versionEquals(y, x)
    requires Equals(a, LibraryObject(b), versionEquals)
    ensures Equals(b, LibraryObject(a), versionEquals)
  {
  }

  /** `equals` is transitive when `Version.equals` is. */
  lemma EqualsTransitive(a: Reference, b: Reference, c: Reference, versionEquals: (Version, Version) -> bool)
    requires forall x, y, z :: versionEquals(x, y) && versionEquals(y, z) ==> versionEquals(x, z)
    requires Equals(a, LibraryObject(b), versionEquals) && Equals(b, LibraryObject(c), versionEquals)
    ensures Equals(a, LibraryObject(c), versionEquals)
  {
  }

  /** The hash of a possibly-null string field: 0 for null. */
  function FieldHash(s: JString): int {
    match s
    case Null => 0
    case Str(chars) => StringHash(chars)
  }

  /**
   * `hashCode()`: `result = 31 * result + h` from 1 over artifact, group and
   * version, in `int` arithmetic. It is the polynomial
   * 31^3 + 31^2*h(artifact) + 31*h(group) + h(version), wrapped to 32 bits.
   */
  function HashCode(l: Library, versionHash: Version -> int): (h: int)
    ensures IsInt(h)
    ensures h == Wrap(29791 + 961 * FieldHash(l.artifact) + 31 * FieldHash(l.group) + versionHash(l.version))
  {
    var prime := 31;
    var first := Wrap(prime * 1 + FieldHash(l.artifact));
    var second := Wrap(prime * first + FieldHash(l.group));
    WrapStep(31 + FieldHash(l.artifact), FieldHash(l.group));
    WrapStep(961 + 31 * FieldHash(l.artifact) + FieldHash(l.group), Wrap(versionHash(l.version)));
    var h := Wrap(prime * second + Wrap(versionHash(l.version)));
    VersionHashWrapped(29791 + 961 * FieldHash(l.artifact) + 31 * FieldHash(l.group), versionHash(l.version));
    h
  }

  /** Adding a value or its 32-bit wrap-around gives the same `int`. */
  lemma VersionHashWrapped(x: int, v: int)
    ensures Wrap(x + Wrap(v)) == Wrap(x + v)
  {
    var w := Wrap(v);
    var m := (w - v) / TwoTo32;
    assert w - v == TwoTo32 * m;
    var r := Wrap(x + w);
    var n := (r - (x + w)) / TwoTo32;
    assert r - (x + w) == TwoTo32 * n;
    assert r - (x + v) == TwoTo32 * (n + m);
    MultipleIsCongruent(n + m);
    WrapUnique(x + v, r);
  }

  /** Equal libraries have equal hash codes, when Version's own hash agrees with its equals. */
  lemma EqualsImpliesEqualHash(a: Reference, b: Reference,
                               versionEquals: (Version, Version) -> bool, versionHash: Version -> int)
    requires forall x, y :: versionEquals(x, y) ==> versionHash(x) == versionHash(y)
    requires Equals(a, LibraryObject(b), versionEquals)
    ensures HashCode(a.library, versionHash) == HashCode(b.library, versionHash)
  {
  }
}
