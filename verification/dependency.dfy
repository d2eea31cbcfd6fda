/**
 * `bee.task.Dependency`: the `tree` command prints the dependency graph,
 * one line per node in pre-order, each line indented by one tab per level.
 * Before a node's children are visited, its child list is sorted in place
 * by artifactId.
 *
 * A node is a value here; the in-place sort becomes the tree that `Show`
 * hands back, and the lines given to `ui.info` become the sequence it
 * returns.
 */
module Dependency {
  import opened JavaText

  /** The coordinate of a resolved artifact. */
  datatype Artifact = Artifact(groupId: string, artifactId: string, version: string)

  /** A node of the resolved dependency graph and its children, in list order. */
  datatype Node = Node(artifact: Artifact, children: seq<Node>)

  /** The sort key: `o.getArtifact().getArtifactId()`. */
  function Key(n: Node): string {
    n.artifact.artifactId
  }

  // ---------------------------------------------------------------------
  // children.sort(Comparator.comparing(artifactId))

  ghost predicate SortedByArtifactId(s: seq<Node>) {
    forall i, j :: 0 <= i < j < |s| ==> AtMost(Key(s[i]), Key(s[j]))
  }

  /** The nodes of s whose artifactId is k, in their order in s. */
  function WithArtifactId(s: seq<Node>, k: string): (r: seq<Node>)
    ensures |r| <= |s|
  {
    if s == [] then []
    else (if Key(s[0]) == k then [s[0]] else []) + WithArtifactId(s[1..], k)
  }

  lemma {:induction false} WithArtifactIdMember(s: seq<Node>, k: string, x: Node)
    requires x in WithArtifactId(s, k)
    ensures x in s && Key(x) == k
  {
    if s != [] && !(Key(s[0]) == k && x == s[0]) {
      WithArtifactIdMember(s[1..], k, x);
    }
  }

  /** x placed before the first node whose key is not smaller than its own. */
  function Insert(x: Node, s: seq<Node>): seq<Node> {
    if s == [] then [x]
    else if AtMost(Key(x), Key(s[0])) then [x] + s
    else [s[0]] + Insert(x, s[1..])
  }

  /** Inserting adds x and nothing else. */
  lemma {:induction false} InsertPermutes(x: Node, s: seq<Node>)
    ensures multiset(Insert(x, s)) == multiset(s) + multiset{x}
  {
    if s != [] && !AtMost(Key(x), Key(s[0])) {
      InsertPermutes(x, s[1..]);
      assert s == [s[0]] + s[1..];
    }
  }

  /** x goes in front of every node that has its own artifactId. */
  lemma {:induction false} InsertStable(x: Node, s: seq<Node>, k: string)
    ensures WithArtifactId(Insert(x, s), k)
         == if Key(x) == k then [x] + WithArtifactId(s, k) else WithArtifactId(s, k)
  {
    if s == [] {
    } else if AtMost(Key(x), Key(s[0])) {
      assert ([x] + s)[1..] == s;
    } else {
      InsertStable(x, s[1..], k);
      var r := [s[0]] + Insert(x, s[1..]);
      assert r[1..] == Insert(x, s[1..]);
      CompareToZero(Key(x), Key(s[0]));
    }
  }

  lemma {:induction false} InsertSorted(x: Node, s: seq<Node>)
    requires SortedByArtifactId(s)
    ensures SortedByArtifactId(Insert(x, s))
  {
    if s != [] {
      if AtMost(Key(x), Key(s[0])) {
        forall j | 0 <= j < |s| ensures AtMost(Key(x), Key(s[j])) {
          if j > 0 { AtMostTransitive(Key(x), Key(s[0]), Key(s[j])); }
        }
      } else {
        AtMostTotal(Key(x), Key(s[0]));
        InsertSorted(x, s[1..]);
        InsertPermutes(x, s[1..]);
        var t := Insert(x, s[1..]);
        forall j | 0 <= j < |t| ensures AtMost(Key(s[0]), Key(t[j])) {
          assert t[j] in multiset(t);
          if t[j] != x {
            assert t[j] in s[1..];
          }
        }
      }
    }
  }

  /**
   * `children.sort(Comparator.comparing(artifactId))`, written as insertion
   * sort. The lemmas below show it is the stable sort by artifactId, which
   * is what List.sort promises.
   */
  function SortChildren(s: seq<Node>): seq<Node> {
    if s == [] then [] else Insert(s[0], SortChildren(s[1..]))
  }

  /** The sorted list is ordered by artifactId. */
  lemma {:induction false} SortChildrenSorted(s: seq<Node>)
    ensures SortedByArtifactId(SortChildren(s))
  {
    if s != [] {
      SortChildrenSorted(s[1..]);
      InsertSorted(s[0], SortChildren(s[1..]));
    }
  }

  /** Sorting keeps the nodes that share an artifactId in their original order. */
  lemma {:induction false} SortChildrenStable(s: seq<Node>, k: string)
    ensures WithArtifactId(SortChildren(s), k) == WithArtifactId(s, k)
  {
    if s != [] {
      SortChildrenStable(s[1..], k);
      InsertStable(s[0], SortChildren(s[1..]), k);
    }
  }

  /** Sorting neither adds nor loses a child: the result is a permutation. */
  lemma {:induction false} SortChildrenPermutes(s: seq<Node>)
    ensures multiset(SortChildren(s)) == multiset(s)
  {
    if s != [] {
      SortChildrenPermutes(s[1..]);
      InsertPermutes(s[0], SortChildren(s[1..]));
      assert s == [s[0]] + s[1..];
    }
  }

  lemma SortedChildrenAreChildren(s: seq<Node>)
    ensures forall c :: c in SortChildren(s) ==> c in s
  {
    SortChildrenPermutes(s);
    forall c | c in SortChildren(s) ensures c in s {
      assert c in multiset(SortChildren(s));
    }
  }

  /**
   * Any list that is ordered by artifactId and keeps each artifactId's
   * nodes in their original order is SortChildren: the stable sort is unique,
   * so Java's merge sort and this insertion sort agree.
   */
  lemma AnyStableSortIsSortChildren(s: seq<Node>, r: seq<Node>)
    requires SortedByArtifactId(r)
    requires forall k :: WithArtifactId(r, k) == WithArtifactId(s, k)
    ensures r == SortChildren(s)
  {
    SortChildrenSorted(s);
    forall k ensures WithArtifactId(SortChildren(s), k) == WithArtifactId(r, k) {
      SortChildrenStable(s, k);
    }
    StableSortUnique(r, SortChildren(s));
  }

  /**
   * A sorted sequence that keeps every key's nodes in a given order is
   * unique: any stable sort by artifactId (Java's merge sort included)
   * produces exactly SortChildren.
   */
  lemma {:induction false} StableSortUnique(r1: seq<Node>, r2: seq<Node>)
    requires SortedByArtifactId(r1) && SortedByArtifactId(r2)
    requires forall k :: WithArtifactId(r1, k) == WithArtifactId(r2, k)
    ensures r1 == r2
  {
    NonEmptyHasOwnKey(r1);
    NonEmptyHasOwnKey(r2);
    if r1 != [] && r2 != [] {
      var k1, k2 := Key(r1[0]), Key(r2[0]);
      FirstKeyIsLeast(r2, k1, WithArtifactId(r1, k1));
      FirstKeyIsLeast(r1, k2, WithArtifactId(r2, k2));
      AtMostAntisymmetric(k1, k2);
      assert WithArtifactId(r1, k1)[0] == r1[0];
      assert WithArtifactId(r2, k1)[0] == r2[0];
      forall k ensures WithArtifactId(r1[1..], k) == WithArtifactId(r2[1..], k) {
        var head: seq<Node> := if k == k1 then [r1[0]] else [];
        assert WithArtifactId(r1, k) == head + WithArtifactId(r1[1..], k);
        assert WithArtifactId(r2, k) == head + WithArtifactId(r2[1..], k);
        assert (head + WithArtifactId(r1[1..], k))[|head|..] == WithArtifactId(r1[1..], k);
        assert (head + WithArtifactId(r2[1..], k))[|head|..] == WithArtifactId(r2[1..], k);
      }
      StableSortUnique(r1[1..], r2[1..]);
      assert r1 == [r1[0]] + r1[1..] && r2 == [r2[0]] + r2[1..];
    }
  }

  lemma NonEmptyHasOwnKey(s: seq<Node>)
    ensures s != [] ==> WithArtifactId(s, Key(s[0])) != []
  {
  }

  /** In a sorted sequence, the first key sorts no later than any key present. */
  lemma FirstKeyIsLeast(s: seq<Node>, k: string, witnesses: seq<Node>)
    requires SortedByArtifactId(s) && s != []
    requires witnesses == WithArtifactId(s, k) && witnesses != []
    ensures AtMost(Key(s[0]), k)
  {
    WithArtifactIdMember(s, k, witnesses[0]);
    var j :| 0 <= j < |s| && s[j] == witnesses[0];
    if j == 0 {
      CompareToZero(k, k);
    }
  }

  // ---------------------------------------------------------------------
  // Rendering

  /** `"\t".repeat(depth)` */
  function Tabs(depth: nat): (t: string)
    ensures |t| == depth
  {
    if depth == 0 then "" else "\t" + Tabs(depth - 1)
  }

  /** The line `show` writes for an artifact at the given depth. */
  function Line(depth: nat, a: Artifact): string {
    Tabs(depth) + a.groupId + "  :  " + a.artifactId + "  :  " + a.version
  }

  /** The number of tab characters a line starts with. */
  function LeadingTabs(s: string): nat {
    if s != [] && s[0] == '\t' then 1 + LeadingTabs(s[1..]) else 0
  }

  /** A groupId that does not itself start with a tab, so that indentation can be read back. */
  predicate PlainGroup(a: Artifact) {
    a.groupId == [] || a.groupId[0] != '\t'
  }

  /** Every artifact in the tree has a plain groupId. */
  ghost predicate WellFormed(n: Node) {
    PlainGroup(n.artifact) && forall c :: c in n.children ==> WellFormed(c)
  }

  /** A line's indentation is exactly its node's depth. */
  lemma {:induction false} LineDepth(depth: nat, a: Artifact)
    requires PlainGroup(a)
    ensures LeadingTabs(Line(depth, a)) == depth
  {
    var rest := a.groupId + "  :  " + a.artifactId + "  :  " + a.version;
    assert LeadingTabs(rest) == 0;
    TabsPrefix(depth, rest);
    assert Line(depth, a) == Tabs(depth) + rest;
  }

  lemma {:induction false} TabsPrefix(depth: nat, rest: string)
    ensures LeadingTabs(Tabs(depth) + rest) == depth + LeadingTabs(rest)
  {
    if depth > 0 {
      TabsPrefix(depth - 1, rest);
      var tail := Tabs(depth - 1) + rest;
      assert Tabs(depth) + rest == "\t" + tail;
      assert ("\t" + tail)[1..] == tail;
    } else {
      assert Tabs(depth) + rest == rest;
    }
  }

  /**
   * `show(depth, node)`: the node's own line, then for each child in
   * artifactId order the lines of `show(depth + 1, child)`.
   */
  function Render(depth: nat, n: Node): (lines: seq<string>)
    decreases n, 1
  {
    [Line(depth, n.artifact)] + RenderFirst(depth + 1, n, |SortChildren(n.children)|)
  }

  /** The lines of `show(depth, c)` for the first k children of parent in sorted order. */
  function RenderFirst(depth: nat, parent: Node, k: nat): seq<string>
    requires k <= |SortChildren(parent.children)|
    decreases parent, 0, k
  {
    if k == 0 then []
    else
      var c := SortChildren(parent.children)[k - 1];
      SortedChildrenAreChildren(parent.children);
      assert c in parent.children;
      RenderFirst(depth, parent, k - 1) + Render(depth, c)
  }

  /** The tree as `show` leaves it: every child list sorted by artifactId. */
  function SortTree(n: Node): (r: Node)
    decreases n, 1
  {
    Node(n.artifact, SortFirst(n, |SortChildren(n.children)|))
  }

  /** SortTree applied to the first k children of parent in sorted order. */
  function SortFirst(parent: Node, k: nat): (r: seq<Node>)
    requires k <= |SortChildren(parent.children)|
    decreases parent, 0, k
  {
    if k == 0 then []
    else
      var c := SortChildren(parent.children)[k - 1];
      SortedChildrenAreChildren(parent.children);
      assert c in parent.children;
      SortFirst(parent, k - 1) + [SortTree(c)]
  }

  /**
   * `show(depth, node)` with its for loop: writes the node's line, sorts the
   * child list, then shows each child one level deeper. Returns the lines
   * written and the node with its children sorted.
   */
  method Show(depth: nat, node: Node) returns (printed: seq<string>, after: Node)
    ensures printed == Render(depth, node)
    ensures after == SortTree(node)
    decreases node, 1
  {
    printed := [Line(depth, node.artifact)];
    var children := SortChildren(node.children);
    SortedChildrenAreChildren(node.children);
    var sorted: seq<Node> := [];
    for i := 0 to |children|
      invariant printed == [Line(depth, node.artifact)] + RenderFirst(depth + 1, node, i)
      invariant sorted == SortFirst(node, i)
    {
      assert children[i] in node.children;
      var lines, child := Show(depth + 1, children[i]);
      printed := printed + lines;
      sorted := sorted + [child];
    }
    after := Node(node.artifact, sorted);
  }

  // ---------------------------------------------------------------------
  // What the listing and the sorted tree look like

  /** The number of nodes in the tree, counting a shared node once per occurrence. */
  function Size(n: Node): nat
    decreases n
  {
    1 + SumSizes(n.children)
  }

  function SumSizes(cs: seq<Node>): nat
    decreases cs
  {
    if cs == [] then 0 else Size(cs[0]) + SumSizes(cs[1..])
  }

  lemma {:induction false} SumSizesAppend(a: seq<Node>, b: seq<Node>)
    ensures SumSizes(a + b) == SumSizes(a) + SumSizes(b)
  {
    if a != [] {
      SumSizesAppend(a[1..], b);
      assert (a + b)[1..] == a[1..] + b;
    } else {
      assert a + b == b;
    }
  }

  lemma {:induction false} SumSizesInsert(x: Node, s: seq<Node>)
    ensures SumSizes(Insert(x, s)) == Size(x) + SumSizes(s)
  {
    if s != [] && !AtMost(Key(x), Key(s[0])) {
      SumSizesInsert(x, s[1..]);
      assert ([s[0]] + Insert(x, s[1..]))[1..] == Insert(x, s[1..]);
    } else if s != [] {
      assert ([x] + s)[1..] == s;
    }
  }

  lemma {:induction false} SumSizesSort(s: seq<Node>)
    ensures SumSizes(SortChildren(s)) == SumSizes(s)
  {
    if s != [] {
      SumSizesSort(s[1..]);
      SumSizesInsert(s[0], SortChildren(s[1..]));
    }
  }

  /** `show` writes exactly one line per node of the tree. */
  lemma {:induction false} RenderLength(depth: nat, n: Node)
    ensures |Render(depth, n)| == Size(n)
    decreases n, 1
  {
    var sorted := SortChildren(n.children);
    RenderFirstLength(depth + 1, n, |sorted|);
    SumSizesSort(n.children);
    assert sorted[..|sorted|] == sorted;
  }

  lemma {:induction false} RenderFirstLength(depth: nat, parent: Node, k: nat)
    requires k <= |SortChildren(parent.children)|
    ensures |RenderFirst(depth, parent, k)| == SumSizes(SortChildren(parent.children)[..k])
    decreases parent, 0, k
  {
    var sorted := SortChildren(parent.children);
    if k > 0 {
      var c := sorted[k - 1];
      SortedChildrenAreChildren(parent.children);
      assert c in parent.children;
      RenderFirstLength(depth, parent, k - 1);
      RenderLength(depth, c);
      assert sorted[..k] == sorted[..k - 1] + [c];
      SumSizesAppend(sorted[..k - 1], [c]);
      assert [c][1..] == [];
    }
  }

  /**
   * The indentation of the listing: the node's own line carries exactly
   * depth tabs and every line below it, which belongs to a descendant,
   * carries more.
   */
  lemma {:induction false} RenderDepth(depth: nat, n: Node)
    requires WellFormed(n)
    ensures LeadingTabs(Render(depth, n)[0]) == depth
    ensures forall i :: 1 <= i < |Render(depth, n)| ==> LeadingTabs(Render(depth, n)[i]) > depth
    decreases n, 1
  {
    var sorted := SortChildren(n.children);
    LineDepth(depth, n.artifact);
    RenderFirstDepth(depth + 1, n, |sorted|);
  }

  lemma {:induction false} RenderFirstDepth(depth: nat, parent: Node, k: nat)
    requires WellFormed(parent)
    requires k <= |SortChildren(parent.children)|
    ensures forall i :: 0 <= i < |RenderFirst(depth, parent, k)| ==> LeadingTabs(RenderFirst(depth, parent, k)[i]) >= depth
    decreases parent, 0, k
  {
    if k > 0 {
      var c := SortChildren(parent.children)[k - 1];
      SortedChildrenAreChildren(parent.children);
      assert c in parent.children;
      RenderFirstDepth(depth, parent, k - 1);
      RenderDepth(depth, c);
    }
  }

  /** Every child list in the tree is ordered by artifactId. */
  ghost predicate TreeSorted(n: Node) {
    SortedByArtifactId(n.children) && forall c :: c in n.children ==> TreeSorted(c)
  }

  /** SortFirst(parent, k) is SortTree applied to each of the first k sorted children. */
  lemma {:induction false} SortFirstElements(parent: Node, k: nat)
    requires k <= |SortChildren(parent.children)|
    ensures |SortFirst(parent, k)| == k
    ensures forall i :: 0 <= i < k ==> SortFirst(parent, k)[i] == SortTree(SortChildren(parent.children)[i])
  {
    if k > 0 {
      SortFirstElements(parent, k - 1);
    }
  }

  /** After `show`, every child list of the tree is sorted by artifactId. */
  lemma {:induction false} SortTreeSorts(n: Node)
    ensures TreeSorted(SortTree(n))
    decreases n
  {
    var sorted := SortChildren(n.children);
    var r := SortFirst(n, |sorted|);
    SortFirstElements(n, |sorted|);
    SortChildrenSorted(n.children);
    SortedChildrenAreChildren(n.children);
    forall i, j | 0 <= i < j < |r| ensures AtMost(Key(r[i]), Key(r[j])) {
      assert Key(r[i]) == Key(sorted[i]) && Key(r[j]) == Key(sorted[j]);
    }
    forall c | c in r ensures TreeSorted(c) {
      var i :| 0 <= i < |r| && r[i] == c;
      assert sorted[i] in n.children;
      SortTreeSorts(sorted[i]);
    }
  }

  /** A tree whose child lists are already sorted is left as it is. */
  lemma {:induction false} SortTreeKeepsSorted(n: Node)
    requires TreeSorted(n)
    ensures SortTree(n) == n
    decreases n
  {
    AnyStableSortIsSortChildren(n.children, n.children);
    var r := SortFirst(n, |n.children|);
    SortFirstElements(n, |n.children|);
    forall i | 0 <= i < |r| ensures r[i] == n.children[i] {
      assert n.children[i] in n.children;
      SortTreeKeepsSorted(n.children[i]);
    }
  }

  /** Showing a tree twice sorts nothing the second time. */
  lemma SortTreeIdempotent(n: Node)
    ensures SortTree(SortTree(n)) == SortTree(n)
  {
    SortTreeSorts(n);
    SortTreeKeepsSorted(SortTree(n));
  }

  /** The lines of a listing that carry exactly d leading tabs, in order. */
  function AtDepth(lines: seq<string>, d: nat): (r: seq<string>)
    ensures |r| <= |lines|
  {
    if lines == [] then []
    else AtDepth(lines[..|lines| - 1], d) + (if LeadingTabs(lines[|lines| - 1]) == d then [lines[|lines| - 1]] else [])
  }

  lemma {:induction false} AtDepthAppend(a: seq<string>, b: seq<string>, d: nat)
    ensures AtDepth(a + b, d) == AtDepth(a, d) + AtDepth(b, d)
  {
    if b == [] {
      assert a + b == a;
    } else {
      AtDepthAppend(a, b[..|b| - 1], d);
      assert (a + b)[..|a + b| - 1] == a + b[..|b| - 1];
    }
  }

  /** The lines `show` writes for the nodes cs themselves, all at depth d. */
  function OwnLines(d: nat, cs: seq<Node>): (r: seq<string>)
    ensures |r| == |cs|
  {
    if cs == [] then [] else OwnLines(d, cs[..|cs| - 1]) + [Line(d, cs[|cs| - 1].artifact)]
  }

  /**
   * Each child is shown one level deeper than its parent, in artifactId
   * order: the lines of `show(depth, n)` indented by exactly depth + 1 tabs
   * are the lines of n's children, sorted.
   */
  lemma {:induction false} ChildrenOneLevelDeeper(depth: nat, n: Node)
    requires WellFormed(n)
    ensures AtDepth(Render(depth, n), depth + 1) == OwnLines(depth + 1, SortChildren(n.children))
  {
    var sorted := SortChildren(n.children);
    var line := Line(depth, n.artifact);
    LineDepth(depth, n.artifact);
    ChildrenLinesFirst(depth + 1, n, |sorted|);
    AtDepthAppend([line], RenderFirst(depth + 1, n, |sorted|), depth + 1);
    assert [line][..0] == [];
    assert sorted[..|sorted|] == sorted;
  }

  lemma {:induction false} ChildrenLinesFirst(depth: nat, parent: Node, k: nat)
    requires WellFormed(parent)
    requires k <= |SortChildren(parent.children)|
    ensures AtDepth(RenderFirst(depth, parent, k), depth) == OwnLines(depth, SortChildren(parent.children)[..k])
  {
    var sorted := SortChildren(parent.children);
    if k > 0 {
      var c := sorted[k - 1];
      SortedChildrenAreChildren(parent.children);
      assert c in parent.children;
      ChildrenLinesFirst(depth, parent, k - 1);
      var lines := Render(depth, c);
      RenderDepth(depth, c);
      AtDepthAppend(RenderFirst(depth, parent, k - 1), lines, depth);
      AtDepthAppend([lines[0]], lines[1..], depth);
      assert lines == [lines[0]] + lines[1..];
      AtDepthNone(lines[1..], depth);
      assert [lines[0]][..0] == [];
      assert sorted[..k][..k - 1] == sorted[..k - 1];
    }
  }

  lemma {:induction false} AtDepthNone(lines: seq<string>, d: nat)
    requires forall i :: 0 <= i < |lines| ==> LeadingTabs(lines[i]) > d
    ensures AtDepth(lines, d) == []
  {
    if lines != [] {
      AtDepthNone(lines[..|lines| - 1], d);
    }
  }

  /**
   * `tree()`: shows the resolved graph from depth 0. One line per node; the
   * first, the root's, is not indented.
   */
  method Tree(graph: Node) returns (printed: seq<string>, after: Node)
    ensures |printed| == Size(graph)
    ensures printed[0] == Line(0, graph.artifact)
    ensures WellFormed(graph) ==> LeadingTabs(printed[0]) == 0
    ensures TreeSorted(after)
    ensures printed == Render(0, graph)
    ensures after == SortTree(graph)
  {
    printed, after := Show(0, graph);
    RenderLength(0, graph);
    if WellFormed(graph) {
      RenderDepth(0, graph);
    }
    SortTreeSorts(graph);
  }
}
