/** The hierarchy model shared by the parser, the renderers and the generator: the `Node`
    structure declared for src/core/parser.cpp, with `add_child`, `find_child` and
    `to_string`, and the pre-order enumeration the properties are stated with. */
module Nodes {
  import opened Wrappers

  datatype Kind = Directory | File

  /** A directory or file. `content` is meaningful for files only; the children of a
      node are owned by it and kept in insertion order. */
  datatype Node = Node(kind: Kind, name: string, content: Option<string>, children: seq<Node>)

  predicate IsDirectory(n: Node) {
    n.kind == Directory
  }

  /** `std::make_unique<Node>(type, name)`: no content, no children. */
  function MakeNode(kind: Kind, name: string): (n: Node)
    ensures n.kind == kind && n.name == name && n.content == None && n.children == []
  {
    Node(kind, name, None, [])
  }

  /** `Node::add_child`: the child becomes the last child; nothing else changes. */
  function AddChild(n: Node, child: Node): (r: Node)
    ensures r.kind == n.kind && r.name == n.name && r.content == n.content
    ensures |r.children| == |n.children| + 1
    ensures r.children[..|n.children|] == n.children && r.children[|n.children|] == child
    ensures Size(r) == Size(n) + Size(child)
  {
    SizeForestAppend(n.children, child);
    n.(children := n.children + [child])
  }

  // ---------------------------------------------------------------------------
  // Size and pre-order enumeration

  /** Number of nodes in the subtree. */
  function Size(n: Node): nat
    decreases n, 1
  {
    1 + SizeForest(n.children)
  }

  function SizeForest(cs: seq<Node>): nat
    decreases cs, 0
  {
    if cs == [] then 0 else Size(cs[0]) + SizeForest(cs[1..])
  }

  lemma {:induction false} SizeForestAppend(cs: seq<Node>, c: Node)
    ensures SizeForest(cs + [c]) == SizeForest(cs) + Size(c)
  {
    if cs != [] {
      assert (cs + [c])[1..] == cs[1..] + [c];
      SizeForestAppend(cs[1..], c);
    }
  }

  /** One visited node as the pre-order enumeration sees it: its depth, kind and name. */
  datatype Item = Item(depth: nat, kind: Kind, name: string)

  /** The nodes of the subtree, root first, children in order, each with its depth
      (the root of the subtree at depth `d`). */
  function Preorder(n: Node, d: nat): (r: seq<Item>)
    ensures |r| == Size(n)
    ensures r[0] == Item(d, n.kind, n.name)
    decreases n, 1
  {
    [Item(d, n.kind, n.name)] + PreorderForest(n.children, d + 1)
  }

  function PreorderForest(cs: seq<Node>, d: nat): (r: seq<Item>)
    ensures |r| == SizeForest(cs)
    decreases cs, 0
  {
    if cs == [] then [] else Preorder(cs[0], d) + PreorderForest(cs[1..], d)
  }

  lemma {:induction false} PreorderForestAppend(cs: seq<Node>, c: Node, d: nat)
    ensures PreorderForest(cs + [c], d) == PreorderForest(cs, d) + Preorder(c, d)
  {
    if cs != [] {
      assert (cs + [c])[1..] == cs[1..] + [c];
      PreorderForestAppend(cs[1..], c, d);
    }
  }

  /** Appending a child appends its subtree at the end of the enumeration, one level deeper. */
  lemma PreorderAddChild(n: Node, child: Node, d: nat)
    ensures Preorder(AddChild(n, child), d) == Preorder(n, d) + Preorder(child, d + 1)
  {
    PreorderForestAppend(n.children, child, d + 1);
  }

  /** Every item of a subtree enumerated from depth `d`, except the first, lies deeper. */
  lemma {:induction false} PreorderDepths(n: Node, d: nat)
    ensures forall i | 1 <= i < |Preorder(n, d)| :: Preorder(n, d)[i].depth > d
    decreases n, 1
  {
    PreorderForestDepths(n.children, d + 1);
  }

  lemma {:induction false} PreorderForestDepths(cs: seq<Node>, d: nat)
    ensures forall i | 0 <= i < |PreorderForest(cs, d)| :: PreorderForest(cs, d)[i].depth >= d
    ensures cs != [] ==> PreorderForest(cs, d)[0].depth == d
    decreases cs, 0
  {
    if cs != [] {
      PreorderDepths(cs[0], d);
      PreorderForestDepths(cs[1..], d);
    }
  }

  /** In an enumeration each item lies at most one level below the one before it. */
  lemma {:induction false} PreorderSteps(n: Node, d: nat)
    ensures forall i | 1 <= i < |Preorder(n, d)| ::
      Preorder(n, d)[i].depth <= Preorder(n, d)[i - 1].depth + 1
    decreases n, 1
  {
    var p, f := Preorder(n, d), PreorderForest(n.children, d + 1);
    PreorderForestSteps(n.children, d + 1);
    assert p == [p[0]] + f;
    forall i | 1 <= i < |p| ensures p[i].depth <= p[i - 1].depth + 1 {
      assert p[i] == f[i - 1];
      if i > 1 {
        assert p[i - 1] == f[i - 2];
      }
    }
  }

  lemma {:induction false} PreorderForestSteps(cs: seq<Node>, d: nat)
    ensures forall i | 1 <= i < |PreorderForest(cs, d)| ::
      PreorderForest(cs, d)[i].depth <= PreorderForest(cs, d)[i - 1].depth + 1
    ensures cs != [] ==> PreorderForest(cs, d)[0].depth == d
    decreases cs, 0
  {
    if cs != [] {
      var f, p, r := PreorderForest(cs, d), Preorder(cs[0], d), PreorderForest(cs[1..], d);
      PreorderSteps(cs[0], d);
      PreorderForestSteps(cs[1..], d);
      PreorderDepths(cs[0], d);
      assert f == p + r;
      forall i | 1 <= i < |f| ensures f[i].depth <= f[i - 1].depth + 1 {
        if i < |p| {
          assert f[i] == p[i] && f[i - 1] == p[i - 1];
        } else if i == |p| {
          assert f[i] == r[0] && f[i - 1] == p[i - 1];
        } else {
          assert f[i] == r[i - |p|] && f[i - 1] == r[i - 1 - |p|];
        }
      }
    }
  }

  /** A node carries no file content anywhere in its subtree. */
  predicate NoContent(n: Node)
    decreases n, 1
  {
    n.content == None && NoContentForest(n.children)
  }

  predicate NoContentForest(cs: seq<Node>)
    decreases cs, 0
  {
    forall i | 0 <= i < |cs| :: NoContent(cs[i])
  }

  /** Without file content, the enumeration determines the tree. */
  lemma {:induction false} PreorderInjective(a: Node, b: Node, d: nat)
    requires NoContent(a) && NoContent(b)
    requires Preorder(a, d) == Preorder(b, d)
    ensures a == b
    decreases a, 1
  {
    var pa, pb := Preorder(a, d), Preorder(b, d);
    assert pa[1..] == PreorderForest(a.children, d + 1);
    assert pb[1..] == PreorderForest(b.children, d + 1);
    PreorderForestInjective(a.children, b.children, d + 1);
  }

  /** The index of the first item at or after `from` no deeper than `d`, or `|s|`. */
  function NextShallow(s: seq<Item>, d: nat, from: nat): (i: nat)
    requires from <= |s|
    ensures from <= i <= |s|
    decreases |s| - from
  {
    if from == |s| || s[from].depth <= d then from else NextShallow(s, d, from + 1)
  }

  /** A run of deeper items ended by a shallow one, or by the end, is what `NextShallow`
      finds. */
  lemma {:induction false} NextShallowIs(s: seq<Item>, d: nat, from: nat, l: nat)
    requires from <= l <= |s|
    requires forall i | from <= i < l :: s[i].depth > d
    requires l < |s| ==> s[l].depth <= d
    ensures NextShallow(s, d, from) == l
    decreases l - from
  {
    if from < l {
      NextShallowIs(s, d, from + 1, l);
    }
  }

  /** In the preorder of a forest, the first tree ends where the first item after its root
      that is no deeper than `d` stands. */
  lemma FirstSubtreeEnd(xs: seq<Node>, d: nat)
    requires xs != []
    ensures Size(xs[0]) == NextShallow(PreorderForest(xs, d), d, 1)
  {
    var s, head, rest := PreorderForest(xs, d), Preorder(xs[0], d), PreorderForest(xs[1..], d);
    var l := Size(xs[0]);
    assert s == head + rest;
    PreorderDepths(xs[0], d);
    PreorderForestDepths(xs[1..], d);
    assert forall i | 1 <= i < l :: s[i] == head[i];
    assert l < |s| ==> s[l] == rest[0];
    NextShallowIs(s, d, 1, l);
  }

  lemma {:induction false} PreorderForestInjective(xs: seq<Node>, ys: seq<Node>, d: nat)
    requires NoContentForest(xs) && NoContentForest(ys)
    requires PreorderForest(xs, d) == PreorderForest(ys, d)
    ensures xs == ys
    decreases xs, 0
  {
    var s := PreorderForest(xs, d);
    if xs != [] && ys != [] {
      var la, lb := Size(xs[0]), Size(ys[0]);
      FirstSubtreeEnd(xs, d);
      FirstSubtreeEnd(ys, d);
      // the second top-level subtree starts at the first later item of depth d
      assert la == lb;
      assert s[..la] == Preorder(xs[0], d) == Preorder(ys[0], d);
      assert s[la..] == PreorderForest(xs[1..], d) == PreorderForest(ys[1..], d);
      PreorderInjective(xs[0], ys[0], d);
      PreorderForestInjective(xs[1..], ys[1..], d);
      assert xs == [xs[0]] + xs[1..] && ys == [ys[0]] + ys[1..];
    }
  }

  // ---------------------------------------------------------------------------
  // Lookup

  /** `Node::find_child`: the first child with the given name, or none. */
  function FindChild(n: Node, name: string): (r: Option<Node>)
    ensures r.Some? ==> exists i | 0 <= i < |n.children| ::
      n.children[i] == r.value && r.value.name == name &&
      forall j | 0 <= j < i :: n.children[j].name != name
    ensures r.None? <==> forall i | 0 <= i < |n.children| :: n.children[i].name != name
  {
    var i := FirstNamed(n.children, name, 0);
    if i < |n.children| then Some(n.children[i]) else None
  }

  /** Index of the first node at or after `from` with the given name; `|cs|` if none. */
  function FirstNamed(cs: seq<Node>, name: string, from: nat): (i: nat)
    requires from <= |cs|
    ensures from <= i <= |cs|
    ensures i < |cs| ==> cs[i].name == name
    ensures forall j | from <= j < i :: cs[j].name != name
    decreases |cs| - from
  {
    if from == |cs| || cs[from].name == name then from else FirstNamed(cs, name, from + 1)
  }

  // ---------------------------------------------------------------------------
  // Text

  /** A node's name with a trailing "/" for directories. */
  function Label(kind: Kind, name: string): string {
    if kind == Directory then name + "/" else name
  }

  function Spaces(n: nat): (s: string)
    ensures |s| == n && forall c | c in s :: c == ' '
  {
    if n == 0 then "" else Spaces(n - 1) + " "
  }

  /** Each line followed by a newline. */
  function Unlines(lines: seq<string>): string {
    if lines == [] then "" else lines[0] + "\n" + Unlines(lines[1..])
  }

  lemma {:induction false} UnlinesAppend(a: seq<string>, b: seq<string>)
    ensures Unlines(a + b) == Unlines(a) + Unlines(b)
  {
    if a != [] {
      assert (a + b)[0] == a[0];
      assert (a + b)[1..] == a[1..] + b;
      UnlinesAppend(a[1..], b);
      calc {
        Unlines(a + b);
        a[0] + "\n" + Unlines(a[1..] + b);
        a[0] + "\n" + (Unlines(a[1..]) + Unlines(b));
        (a[0] + "\n" + Unlines(a[1..])) + Unlines(b);
      }
    } else {
      assert a + b == b;
    }
  }

  /** `Node::to_string(indent)`: one line per node, indented by two spaces per level. */
  function ToString(n: Node, indent: nat): string
    decreases n, 1
  {
    Spaces(indent * 2) + Label(n.kind, n.name) + "\n" + ToStringForest(n.children, indent + 1)
  }

  function ToStringForest(cs: seq<Node>, indent: nat): string
    decreases cs, 0
  {
    if cs == [] then "" else ToString(cs[0], indent) + ToStringForest(cs[1..], indent)
  }

  /** The line `to_string` writes for one enumerated node. */
  function IndentedLines(items: seq<Item>): (r: seq<string>)
    ensures |r| == |items|
    ensures forall i | 0 <= i < |items| ::
      r[i] == Spaces(items[i].depth * 2) + Label(items[i].kind, items[i].name)
  {
    if items == [] then []
    else [Spaces(items[0].depth * 2) + Label(items[0].kind, items[0].name)] + IndentedLines(items[1..])
  }

  lemma IndentedLinesAppend(a: seq<Item>, b: seq<Item>)
    ensures IndentedLines(a + b) == IndentedLines(a) + IndentedLines(b)
  {
  }

  /** `to_string` prints the pre-order enumeration, one node per line, indented by depth. */
  lemma {:induction false} ToStringIsPreorder(n: Node, indent: nat)
    ensures ToString(n, indent) == Unlines(IndentedLines(Preorder(n, indent)))
    decreases n, 1
  {
    var first := Spaces(indent * 2) + Label(n.kind, n.name);
    var rest := PreorderForest(n.children, indent + 1);
    ToStringForestIsPreorder(n.children, indent + 1);
    assert IndentedLines(Preorder(n, indent)) == [first] + IndentedLines(rest);
    assert Unlines([first] + IndentedLines(rest)) == first + "\n" + Unlines(IndentedLines(rest));
  }

  lemma {:induction false} ToStringForestIsPreorder(cs: seq<Node>, indent: nat)
    ensures ToStringForest(cs, indent) == Unlines(IndentedLines(PreorderForest(cs, indent)))
    decreases cs, 0
  {
    if cs != [] {
      var a, b := Preorder(cs[0], indent), PreorderForest(cs[1..], indent);
      ToStringIsPreorder(cs[0], indent);
      ToStringForestIsPreorder(cs[1..], indent);
      IndentedLinesAppend(a, b);
      UnlinesAppend(IndentedLines(a), IndentedLines(b));
    }
  }
}
