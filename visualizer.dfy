/** The tree renderer of src/core/parser.cpp (`TreeVisualizer`): draws a tree with box
    glyphs or with ASCII characters, one line per node. */
module Visualizer {
  import opened Nodes
  import opened Strings

  /** The connector before a node's name. */
  function Branch(isLast: bool, unicode: bool): (s: string)
    ensures |s| == 4
  {
    if unicode then (if isLast then "\U{2514}\U{2500}\U{2500} " else "\U{251C}\U{2500}\U{2500} ")
    else (if isLast then "`-- " else "|-- ")
  }

  /** What the children of a node add to its prefix: a continuing vertical line unless the
      node is the last child. */
  function Extension(isLast: bool, unicode: bool): (s: string)
    ensures |s| == 4
  {
    if isLast then "    " else if unicode then "\U{2502}   " else "|   "
  }

  /** The line of a node: the prefix, the connector and the node's label
      (its name, with '/' after a directory). */
  function HeadLine(n: Node, prefix: string, isLast: bool, unicode: bool): string {
    prefix + Branch(isLast, unicode) + Label(n.kind, n.name) + "\n"
  }

  /** The text `visualize_recursive` appends for a node and its subtree. */
  function RenderNode(n: Node, prefix: string, isLast: bool, unicode: bool): string
    decreases n, 1
  {
    HeadLine(n, prefix, isLast, unicode) +
    RenderChildren(n.children, 0, prefix + Extension(isLast, unicode), unicode)
  }

  /** The text for the children from index `i` on, the last one drawn as last. */
  function RenderChildren(cs: seq<Node>, i: nat, prefix: string, unicode: bool): string
    requires i <= |cs|
    decreases cs, 0, |cs| - i
  {
    if i == |cs| then ""
    else RenderNode(cs[i], prefix, i == |cs| - 1, unicode) + RenderChildren(cs, i + 1, prefix, unicode)
  }

  /** The text `visualize` returns: the root's label, then its subtrees. */
  function Render(root: Node, unicode: bool): string {
    Label(root.kind, root.name) + "\n" + RenderChildren(root.children, 0, "", unicode)
  }

  /** `visualize_recursive`: appends the node's line and then, child by child, each
      child's subtree with the extended prefix. */
  method VisualizeRecursive(node: Node, output: string, prefix: string, isLast: bool, unicode: bool)
    returns (out: string)
    ensures out == output + RenderNode(node, prefix, isLast, unicode)
    decreases node
  {
    var branch := Branch(isLast, unicode);
    var extension := Extension(isLast, unicode);
    var shown := node.name;
    if node.kind == Directory {
      shown := shown + "/";
    }
    assert shown == Label(node.kind, node.name);
    var line := prefix + branch + shown + "\n";
    out := output + line;
    var childPrefix := prefix + extension;
    ghost var target := output + RenderNode(node, prefix, isLast, unicode);
    ConcatAssoc(output, line, RenderChildren(node.children, 0, childPrefix, unicode));

    for i := 0 to |node.children|
      invariant out + RenderChildren(node.children, i, childPrefix, unicode) == target
    {
      var childIsLast := i == |node.children| - 1;
      ghost var rest := RenderChildren(node.children, i + 1, childPrefix, unicode);
      ghost var sub := RenderNode(node.children[i], childPrefix, childIsLast, unicode);
      assert RenderChildren(node.children, i, childPrefix, unicode) == sub + rest;
      ConcatAssoc(out, sub, rest);
      out := VisualizeRecursive(node.children[i], out, childPrefix, childIsLast, unicode);
    }
  }

  /** `visualize`: the root's label and its subtrees. */
  method Visualize(root: Node, unicode: bool) returns (output: string)
    ensures output == Render(root, unicode)
  {
    output := root.name;
    if root.kind == Directory {
      output := output + "/";
    }
    output := output + "\n";
    ghost var target := Render(root, unicode);
    for i := 0 to |root.children|
      invariant output + RenderChildren(root.children, i, "", unicode) == target
    {
      var isLast := i == |root.children| - 1;
      ghost var rest := RenderChildren(root.children, i + 1, "", unicode);
      ghost var sub := RenderNode(root.children[i], "", isLast, unicode);
      assert RenderChildren(root.children, i, "", unicode) == sub + rest;
      ConcatAssoc(output, sub, rest);
      output := VisualizeRecursive(root.children[i], output, "", isLast, unicode);
    }
  }

  // ---------------------------------------------------------------------------
  // The drawing against the pre-order enumeration

  /** The lines `RenderNode` writes, without their newlines. */
  function NodeLines(n: Node, prefix: string, isLast: bool, unicode: bool): seq<string>
    decreases n, 1
  {
    [prefix + Branch(isLast, unicode) + Label(n.kind, n.name)] +
    ChildLines(n.children, 0, prefix + Extension(isLast, unicode), unicode)
  }

  function ChildLines(cs: seq<Node>, i: nat, prefix: string, unicode: bool): seq<string>
    requires i <= |cs|
    decreases cs, 0, |cs| - i
  {
    if i == |cs| then []
    else NodeLines(cs[i], prefix, i == |cs| - 1, unicode) + ChildLines(cs, i + 1, prefix, unicode)
  }

  function RenderLines(root: Node, unicode: bool): seq<string> {
    [Label(root.kind, root.name)] + ChildLines(root.children, 0, "", unicode)
  }

  /** A drawn line shows an enumerated node: four drawing characters per level of depth,
      then the node's label. */
  predicate Shows(line: string, item: Item) {
    |line| == 4 * item.depth + |Label(item.kind, item.name)| &&
    line[4 * item.depth..] == Label(item.kind, item.name)
  }

  predicate AllShow(lines: seq<string>, items: seq<Item>) {
    |lines| == |items| && forall j | 0 <= j < |lines| :: Shows(lines[j], items[j])
  }

  lemma AllShowAppend(a: seq<string>, x: seq<Item>, b: seq<string>, y: seq<Item>)
    requires AllShow(a, x) && AllShow(b, y)
    ensures AllShow(a + b, x + y)
  {
    forall j | 0 <= j < |a| + |b| ensures Shows((a + b)[j], (x + y)[j]) {
      if j >= |a| {
        assert (a + b)[j] == b[j - |a|] && (x + y)[j] == y[j - |a|];
      }
    }
  }

  lemma LineShows(lead: string, item: Item)
    requires |lead| == 4 * item.depth
    ensures Shows(lead + Label(item.kind, item.name), item)
    ensures AllShow([lead + Label(item.kind, item.name)], [item])
  {
    assert (lead + Label(item.kind, item.name))[|lead|..] == Label(item.kind, item.name);
  }

  lemma {:induction false} NodeLinesShow(n: Node, prefix: string, isLast: bool, unicode: bool, d: nat)
    requires d >= 1 && |prefix| == 4 * (d - 1)
    ensures AllShow(NodeLines(n, prefix, isLast, unicode), Preorder(n, d))
    decreases n, 1
  {
    var first := prefix + Branch(isLast, unicode) + Label(n.kind, n.name);
    var cp := prefix + Extension(isLast, unicode);
    var rest := ChildLines(n.children, 0, cp, unicode);
    ChildLinesShow(n.children, 0, cp, unicode, d + 1);
    assert NodeLines(n, prefix, isLast, unicode) == [first] + rest;
    LineShows(prefix + Branch(isLast, unicode), Item(d, n.kind, n.name));
    assert n.children[0..] == n.children;
    AllShowAppend([first], [Item(d, n.kind, n.name)], rest, PreorderForest(n.children, d + 1));
  }

  lemma {:induction false} ChildLinesShow(cs: seq<Node>, i: nat, prefix: string, unicode: bool, d: nat)
    requires i <= |cs| && d >= 1 && |prefix| == 4 * (d - 1)
    ensures AllShow(ChildLines(cs, i, prefix, unicode), PreorderForest(cs[i..], d))
    decreases cs, 0, |cs| - i
  {
    if i < |cs| {
      NodeLinesShow(cs[i], prefix, i == |cs| - 1, unicode, d);
      ChildLinesShow(cs, i + 1, prefix, unicode, d);
      assert cs[i..][0] == cs[i] && cs[i..][1..] == cs[i + 1..];
      AllShowAppend(NodeLines(cs[i], prefix, i == |cs| - 1, unicode), Preorder(cs[i], d),
        ChildLines(cs, i + 1, prefix, unicode), PreorderForest(cs[i + 1..], d));
    }
  }

  /** Joining a node's lines, each with its newline, gives the text drawn for it. */
  lemma {:induction false} NodeLinesText(n: Node, prefix: string, isLast: bool, unicode: bool)
    ensures Unlines(NodeLines(n, prefix, isLast, unicode)) == RenderNode(n, prefix, isLast, unicode)
    decreases n, 1
  {
    var first := prefix + Branch(isLast, unicode) + Label(n.kind, n.name);
    var cp := prefix + Extension(isLast, unicode);
    var rest := ChildLines(n.children, 0, cp, unicode);
    ChildLinesText(n.children, 0, cp, unicode);
    assert NodeLines(n, prefix, isLast, unicode) == [first] + rest;
    UnlinesAppend([first], rest);
    assert Unlines([first]) == HeadLine(n, prefix, isLast, unicode);
  }

  lemma {:induction false} ChildLinesText(cs: seq<Node>, i: nat, prefix: string, unicode: bool)
    requires i <= |cs|
    ensures Unlines(ChildLines(cs, i, prefix, unicode)) == RenderChildren(cs, i, prefix, unicode)
    decreases cs, 0, |cs| - i
  {
    if i < |cs| {
      NodeLinesText(cs[i], prefix, i == |cs| - 1, unicode);
      ChildLinesText(cs, i + 1, prefix, unicode);
      UnlinesAppend(NodeLines(cs[i], prefix, i == |cs| - 1, unicode), ChildLines(cs, i + 1, prefix, unicode));
    }
  }

  /** The drawing has one line per node, in pre-order; the line of a node at depth `d`
      is `4 * d` drawing characters followed by its name, with '/' after a directory. */
  lemma RenderIsPreorder(root: Node, unicode: bool)
    ensures Render(root, unicode) == Unlines(RenderLines(root, unicode))
    ensures |RenderLines(root, unicode)| == Size(root)
    ensures AllShow(RenderLines(root, unicode), Preorder(root, 0))
  {
    ChildLinesShow(root.children, 0, "", unicode, 1);
    ChildLinesText(root.children, 0, "", unicode);
    assert root.children[0..] == root.children;
    var first := Label(root.kind, root.name);
    LineShows("", Item(0, root.kind, root.name));
    assert "" + first == first;
    AllShowAppend([first], [Item(0, root.kind, root.name)],
      ChildLines(root.children, 0, "", unicode), PreorderForest(root.children, 1));
    UnlinesAppend([first], ChildLines(root.children, 0, "", unicode));
  }

  // ---------------------------------------------------------------------------
  // The drawing characters against the enumeration

  /** Whether the items at depth `k` have run out when looking from `from` on: the first
      item there no deeper than `k` is shallower, or there is none. */
  predicate Closed(items: seq<Item>, from: nat, k: nat)
    requires from <= |items|
  {
    var m := NextShallow(items, k, from);
    m == |items| || items[m].depth < k
  }

  /** The node of item `j`, or its ancestor at depth `k`, is the last child of its
      parent: after `j`, a shallower item comes before any other item at depth `k`. */
  predicate LastAt(items: seq<Item>, j: nat, k: nat)
    requires j < |items|
  {
    Closed(items, j + 1, k)
  }

  /** Item `j` is the last child of its parent. */
  predicate LastSibling(items: seq<Item>, j: nat)
    requires j < |items|
  {
    LastAt(items, j, items[j].depth)
  }

  /** The four drawing characters of level `k` (from 1) of a line. */
  function Column(line: string, k: nat): string
    requires 1 <= k && 4 * k <= |line|
  {
    line[4 * (k - 1)..4 * k]
  }

  /** The line of item `j` at depth `d` carries, at level `d`, the connector of a last
      child or of another child, and at each level `k` above, the continuing line or
      the blank of the ancestor at depth `k`. */
  predicate Drawn(line: string, items: seq<Item>, j: nat, unicode: bool)
    requires j < |items|
  {
    var d := items[j].depth;
    4 * d <= |line| &&
    (d >= 1 ==> Column(line, d) == Branch(LastSibling(items, j), unicode)) &&
    forall k | 1 <= k < d :: Column(line, k) == Extension(LastAt(items, j, k), unicode)
  }

  predicate AllDrawn(lines: seq<string>, items: seq<Item>, unicode: bool) {
    |lines| <= |items| &&
    forall j {:trigger Drawn(lines[j], items, j, unicode)} | 0 <= j < |lines| ::
      Drawn(lines[j], items, j, unicode)
  }

  /** The prefix handed to the subtrees at depth `d` draws, at each level above, whether
      the items at that depth have run out in `after`, the items that follow them. */
  predicate PrefixDrawn(prefix: string, after: seq<Item>, d: nat, unicode: bool) {
    d >= 1 && |prefix| == 4 * (d - 1) &&
    forall k | 1 <= k < d :: Column(prefix, k) == Extension(Closed(after, 0, k), unicode)
  }

  lemma {:induction false} NextShallowShift(a: seq<Item>, s: seq<Item>, k: nat, m: nat)
    requires m <= |s|
    ensures NextShallow(a + s, k, |a| + m) == |a| + NextShallow(s, k, m)
    decreases |s| - m
  {
    if m < |s| {
      assert (a + s)[|a| + m] == s[m];
      NextShallowShift(a, s, k, m + 1);
    }
  }

  /** What follows position `|a| + m` in `a + s` is what follows `m` in `s`. */
  lemma ClosedShift(a: seq<Item>, s: seq<Item>, m: nat, k: nat)
    requires m <= |s|
    ensures Closed(a + s, |a| + m, k) == Closed(s, m, k)
  {
    NextShallowShift(a, s, k, m);
    var n := NextShallow(s, k, m);
    if n < |s| {
      assert (a + s)[|a| + n] == s[n];
    }
  }

  lemma {:induction false} NextShallowSkip(items: seq<Item>, k: nat, from: nat, to: nat)
    requires from <= to <= |items|
    requires forall i | from <= i < to :: items[i].depth > k
    ensures NextShallow(items, k, from) == NextShallow(items, k, to)
    decreases |items| - from
  {
    if from < to {
      NextShallowSkip(items, k, from + 1, to);
    }
  }

  /** Items deeper than `k` between `from` and `|a|` do not decide whether the items at
      depth `k` have run out. */
  lemma ClosedPast(a: seq<Item>, s: seq<Item>, from: nat, k: nat)
    requires from <= |a|
    requires forall i | from <= i < |a| :: a[i].depth > k
    ensures Closed(a + s, from, k) == Closed(s, 0, k)
  {
    assert forall i | from <= i < |a| :: (a + s)[i] == a[i];
    NextShallowSkip(a + s, k, from, |a|);
    ClosedShift(a, s, 0, k);
  }

  lemma DrawnShift(line: string, a: seq<Item>, s: seq<Item>, j: nat, unicode: bool)
    requires j < |s|
    ensures Drawn(line, a + s, |a| + j, unicode) == Drawn(line, s, j, unicode)
  {
    assert (a + s)[|a| + j] == s[j];
    forall k ensures LastAt(a + s, |a| + j, k) == LastAt(s, j, k) {
      ClosedShift(a, s, j + 1, k);
    }
  }

  lemma AllDrawnAppend(a: seq<string>, x: seq<Item>, b: seq<string>, s: seq<Item>, unicode: bool)
    requires |a| == |x| && AllDrawn(a, x + s, unicode) && AllDrawn(b, s, unicode)
    ensures AllDrawn(a + b, x + s, unicode)
  {
    forall j | 0 <= j < |a| + |b| ensures Drawn((a + b)[j], x + s, j, unicode) {
      if j < |a| {
        assert (a + b)[j] == a[j];
      } else {
        var m := j - |a|;
        assert (a + b)[j] == b[m] && Drawn(b[m], s, m, unicode);
        DrawnShift(b[m], x, s, m, unicode);
      }
    }
  }

  /** The line of a node heading its own subtree, followed by `after`. */
  lemma HeadDrawn(n: Node, prefix: string, isLast: bool, unicode: bool, d: nat, after: seq<Item>)
    requires PrefixDrawn(prefix, after, d, unicode) && isLast == Closed(after, 0, d)
    ensures AllDrawn([prefix + Branch(isLast, unicode) + Label(n.kind, n.name)],
      Preorder(n, d) + after, unicode)
  {
    var head := prefix + Branch(isLast, unicode) + Label(n.kind, n.name);
    var pn := Preorder(n, d);
    PreorderDepths(n, d);
    assert (pn + after)[0].depth == d;
    forall k | 1 <= k <= d
      ensures Closed(pn + after, 1, k) == Closed(after, 0, k)
    {
      ClosedPast(pn, after, 1, k);
    }
    assert Column(head, d) == Branch(isLast, unicode);
    forall k | 1 <= k < d ensures Column(head, k) == Column(prefix, k) { }
  }

  /** The prefix handed to a node's children adds the node's own level. */
  lemma PrefixExtended(prefix: string, isLast: bool, unicode: bool, d: nat, after: seq<Item>)
    requires PrefixDrawn(prefix, after, d, unicode) && isLast == Closed(after, 0, d)
    ensures PrefixDrawn(prefix + Extension(isLast, unicode), after, d + 1, unicode)
  {
    var e := Extension(isLast, unicode);
    var cp := prefix + e;
    LastColumn(prefix, e, d);
    forall k | 1 <= k < d + 1 ensures Column(cp, k) == Extension(Closed(after, 0, k), unicode) {
      if k < d {
        ColumnOfPrefix(prefix, e, k);
      }
    }
  }

  lemma LastColumn(p: string, e: string, d: nat)
    requires d >= 1 && |p| == 4 * (d - 1) && |e| == 4
    ensures Column(p + e, d) == e
  {
    assert (p + e)[|p|..|p| + 4] == e;
  }

  lemma ColumnOfPrefix(p: string, q: string, k: nat)
    requires 1 <= k && 4 * k <= |p|
    ensures Column(p + q, k) == Column(p, k)
  {
    assert forall i | 0 <= i < |p| :: (p + q)[i] == p[i];
  }

  /** Items at depth `d` or deeper in front of `after` leave the levels above unchanged. */
  lemma PrefixPast(prefix: string, r: seq<Item>, after: seq<Item>, d: nat, unicode: bool)
    requires PrefixDrawn(prefix, after, d, unicode)
    requires forall i | 0 <= i < |r| :: r[i].depth >= d
    ensures PrefixDrawn(prefix, r + after, d, unicode)
  {
    forall k | 1 <= k < d ensures Closed(r + after, 0, k) == Closed(after, 0, k) {
      ClosedPast(r, after, 0, k);
    }
  }

  lemma {:induction false} NodeLinesDrawn(n: Node, prefix: string, isLast: bool, unicode: bool,
      d: nat, after: seq<Item>)
    requires PrefixDrawn(prefix, after, d, unicode)
    requires after == [] || after[0].depth <= d
    requires isLast == Closed(after, 0, d)
    ensures AllDrawn(NodeLines(n, prefix, isLast, unicode), Preorder(n, d) + after, unicode)
    decreases n, 1
  {
    PrefixExtended(prefix, isLast, unicode, d, after);
    ChildLinesDrawn(n.children, 0, prefix + Extension(isLast, unicode), unicode, d + 1, after);
    HeadDrawn(n, prefix, isLast, unicode, d, after);
    NodeLinesAssemble(n, prefix, isLast, unicode, d, after);
  }

  /** A node's lines are drawn when its own line and its children's lines are. */
  lemma NodeLinesAssemble(n: Node, prefix: string, isLast: bool, unicode: bool, d: nat,
      after: seq<Item>)
    requires AllDrawn([prefix + Branch(isLast, unicode) + Label(n.kind, n.name)],
      Preorder(n, d) + after, unicode)
    requires AllDrawn(ChildLines(n.children, 0, prefix + Extension(isLast, unicode), unicode),
      PreorderForest(n.children[0..], d + 1) + after, unicode)
    ensures AllDrawn(NodeLines(n, prefix, isLast, unicode), Preorder(n, d) + after, unicode)
  {
    var head := prefix + Branch(isLast, unicode) + Label(n.kind, n.name);
    var cl := ChildLines(n.children, 0, prefix + Extension(isLast, unicode), unicode);
    var x, fc := Item(d, n.kind, n.name), PreorderForest(n.children, d + 1);
    assert n.children[0..] == n.children;
    ConcatAssoc([x], fc, after);
    assert Preorder(n, d) + after == [x] + (fc + after);
    AllDrawnAppend([head], [x], cl, fc + after, unicode);
    assert NodeLines(n, prefix, isLast, unicode) == [head] + cl;
  }


  lemma {:induction false} ChildLinesDrawn(cs: seq<Node>, i: nat, prefix: string, unicode: bool,
      d: nat, after: seq<Item>)
    requires i <= |cs| && PrefixDrawn(prefix, after, d, unicode)
    requires after == [] || after[0].depth < d
    ensures AllDrawn(ChildLines(cs, i, prefix, unicode), PreorderForest(cs[i..], d) + after, unicode)
    decreases cs, 0, |cs| - i
  {
    if i < |cs| {
      var isLast := i == |cs| - 1;
      var pn, r := Preorder(cs[i], d), PreorderForest(cs[i + 1..], d);
      assert cs[i..][0] == cs[i] && cs[i..][1..] == cs[i + 1..];
      assert PreorderForest(cs[i..], d) + after == pn + (r + after);
      PreorderForestDepths(cs[i + 1..], d);
      PrefixPast(prefix, r, after, d, unicode);
      assert isLast == Closed(r + after, 0, d) by {
        if isLast {
          assert r + after == after;
        } else {
          assert (r + after)[0] == r[0];
        }
      }
      NodeLinesDrawn(cs[i], prefix, isLast, unicode, d, r + after);
      ChildLinesDrawn(cs, i + 1, prefix, unicode, d, after);
      NodeLinesShow(cs[i], prefix, isLast, unicode, d);
      AllDrawnAppend(NodeLines(cs[i], prefix, isLast, unicode), pn,
        ChildLines(cs, i + 1, prefix, unicode), r + after, unicode);
    }
  }

  /** The drawing characters of every line: a node at depth `d` has the connector of a
      last child ("\u2514\u2500\u2500 " or "`-- ") or of another child ("\u251C\u2500\u2500 " or
      "|-- ") at level `d`, and at each level `k` above it four spaces when its ancestor
      at depth `k` is a last child, a continuing line ("\u2502   " or "|   ") otherwise. */
  lemma RenderColumns(root: Node, unicode: bool)
    ensures AllDrawn(RenderLines(root, unicode), Preorder(root, 0), unicode)
  {
    var f := PreorderForest(root.children, 1);
    ChildLinesDrawn(root.children, 0, "", unicode, 1, []);
    assert root.children[0..] == root.children && f + [] == f;
    AllDrawnAppend([Label(root.kind, root.name)], [Item(0, root.kind, root.name)],
      ChildLines(root.children, 0, "", unicode), f, unicode);
  }

  /** The nearest item at or before `j` that is no deeper than `k` (the first item when
      there is none): in an enumeration, the ancestor at depth `k` of item `j`. */
  function Ancestor(items: seq<Item>, j: nat, k: nat): (a: nat)
    requires j < |items|
    ensures a <= j
  {
    if items[j].depth <= k || j == 0 then j else Ancestor(items, j - 1, k)
  }

  lemma {:induction false} AncestorSpan(items: seq<Item>, j: nat, k: nat)
    requires j < |items| && items[0].depth <= k
    ensures items[Ancestor(items, j, k)].depth <= k
    ensures forall i | Ancestor(items, j, k) < i <= j :: items[i].depth > k
  {
    if items[j].depth > k && j > 0 {
      AncestorSpan(items, j - 1, k);
    }
  }

  lemma PreorderStep(root: Node, i: nat)
    requires 1 <= i < |Preorder(root, 0)|
    ensures Preorder(root, 0)[i].depth <= Preorder(root, 0)[i - 1].depth + 1
  {
    PreorderSteps(root, 0);
  }

  /** The column of level `k` of a line, above the line's own level, continues or not
      according to whether the ancestor at depth `k` is a last child. */
  lemma AncestorColumns(root: Node, unicode: bool, j: nat, k: nat)
    requires j < |Preorder(root, 0)| && 1 <= k < Preorder(root, 0)[j].depth
    ensures var items := Preorder(root, 0);
      var a := Ancestor(items, j, k);
      a < j && items[a].depth == k && (forall i | a < i <= j :: items[i].depth > k) &&
      |RenderLines(root, unicode)| == |items| && 4 * k <= |RenderLines(root, unicode)[j]| &&
      Column(RenderLines(root, unicode)[j], k) == Extension(LastSibling(items, a), unicode)
  {
    var items, lines := Preorder(root, 0), RenderLines(root, unicode);
    var a := Ancestor(items, j, k);
    RenderIsPreorder(root, unicode);
    RenderColumns(root, unicode);
    assert Drawn(lines[j], items, j, unicode);
    assert Column(lines[j], k) == Extension(LastAt(items, j, k), unicode);
    AncestorSpan(items, j, k);
    PreorderStep(root, a + 1);
    assert items[a].depth == k;
    NextShallowSkip(items, k, a + 1, j + 1);
    assert LastAt(items, j, k) == LastSibling(items, a);
  }
}
