/** What a walk of `FileGenerator` guarantees (src/core/generator.cpp): which nodes it
    visits and in what order, what the progress callback receives, what the statistics
    count, and how the filesystem changes. */
module GenerationProperties {
  import opened Wrappers
  import opened Errors
  import opened Nodes
  import opened FileSystem
  import opened Json
  import opened Generator

  // ---------------------------------------------------------------------------
  // The nodes a walk visits

  /** A visited node: the path it is created at and its kind. */
  datatype Visit = Visit(path: Path, kind: Kind)

  /** The nodes `generate_node` visits, in order: the node at `path`, then, for a
      directory, each child's subtree at `path / name`. */
  function Visits(n: Node, path: Path): (vs: seq<Visit>)
    ensures |vs| >= 1 && vs[0] == Visit(path, n.kind)
    decreases n, 1
  {
    [Visit(path, n.kind)] + (if n.kind == Directory then VisitsForest(n.children, path) else [])
  }

  function VisitsForest(cs: seq<Node>, path: Path): seq<Visit>
    decreases cs, 0
  {
    if cs == [] then [] else Visits(cs[0], ChildPath(path, cs[0].name)) + VisitsForest(cs[1..], path)
  }

  /** No file node has children. */
  predicate FileLeaves(n: Node)
    decreases n, 1
  {
    (n.kind == File ==> n.children == []) && FileLeavesForest(n.children)
  }

  predicate FileLeavesForest(cs: seq<Node>)
    decreases cs, 0
  {
    cs != [] ==> FileLeaves(cs[0]) && FileLeavesForest(cs[1..])
  }

  /** The walk visits at most `count_nodes` nodes, and exactly that many precisely when no
      file node has children (the children of a file are counted but never visited). */
  lemma {:induction false} VisitsCount(n: Node, path: Path)
    ensures |Visits(n, path)| <= Size(n)
    ensures |Visits(n, path)| == Size(n) <==> FileLeaves(n)
    decreases n, 1
  {
    VisitsForestCount(n.children, path);
    if n.kind == File && n.children != [] {
      assert SizeForest(n.children) >= 1;
    }
  }

  lemma {:induction false} VisitsForestCount(cs: seq<Node>, path: Path)
    ensures |VisitsForest(cs, path)| <= SizeForest(cs)
    ensures |VisitsForest(cs, path)| == SizeForest(cs) <==> FileLeavesForest(cs)
    decreases cs, 0
  {
    if cs != [] {
      VisitsCount(cs[0], ChildPath(path, cs[0].name));
      VisitsForestCount(cs[1..], path);
    }
  }

  /** A file node with a child below it: `count_nodes` gives 3, the walk visits 2. */
  lemma FileWithChildExample()
    ensures var n := Node(Directory, "root", None, [Node(File, "a.txt", None, [Node(File, "b.txt", None, [])])]);
      Size(n) == 3 && |Visits(n, [])| == 2
  {
    var b := Node(File, "b.txt", None, []);
    var a := Node(File, "a.txt", None, [b]);
    var n := Node(Directory, "root", None, [a]);
    assert Size(b) == 1;
    assert SizeForest([b]) == 1 by { assert [b][1..] == []; }
    assert Size(a) == 2;
    assert SizeForest([a]) == 2 by { assert [a][1..] == []; }
    assert Visits(a, ["a.txt"]) == [Visit(["a.txt"], File)];
    assert VisitsForest([a], []) == [Visit(["a.txt"], File)] by {
      assert [a][1..] == [];
      SegmentsOfPlainName(a.name);
      assert ChildPath([], a.name) == ["a.txt"];
    }
  }

  /** The trees built from JSON templates have no file with children. */
  lemma {:induction false} MemberNodeFileLeaves(key: string, value: Json)
    ensures FileLeaves(MemberNode(key, value))
    decreases value, 1
  {
    if value.JObject? {
      MemberNodesFileLeaves(value, Keys(value));
    }
  }

  lemma {:induction false} MemberNodesFileLeaves(obj: Json, keys: seq<string>)
    requires obj.JObject? && forall k | k in keys :: k in obj.fields
    ensures FileLeavesForest(MemberNodes(obj, keys))
    decreases obj, 0, |keys|
  {
    var cs := MemberNodes(obj, keys);
    forall i | 0 <= i < |keys| ensures FileLeaves(cs[i]) {
      MemberNodeFileLeaves(keys[i], obj.fields[keys[i]]);
    }
    AllFileLeaves(cs);
  }

  lemma {:induction false} AllFileLeaves(cs: seq<Node>)
    requires forall i | 0 <= i < |cs| :: FileLeaves(cs[i])
    ensures FileLeavesForest(cs)
  {
    if cs != [] {
      AllFileLeaves(cs[1..]);
    }
  }

  lemma StructureFileLeaves(obj: Json, rootName: string)
    requires obj.JObject?
    ensures FileLeaves(StructureTree(obj, rootName))
  {
    MemberNodesFileLeaves(obj, Keys(obj));
  }

  // ---------------------------------------------------------------------------
  // Progress notices

  /** The notices for visits `vs` numbered from `start`, when a callback is set. */
  function Announced(opts: Options, vs: seq<Visit>, start: nat, total: nat): (ns: seq<Notice>)
    ensures |ns| == (if opts.hasCallback then |vs| else 0)
  {
    if vs == [] || !opts.hasCallback then []
    else [Notice(vs[0].path, vs[0].kind == Directory, start, total)] + Announced(opts, vs[1..], start + 1, total)
  }

  /** The `j`-th notice is about the `j`-th visit and carries the number `start + j`. */
  lemma {:induction false} AnnouncedAt(opts: Options, vs: seq<Visit>, start: nat, total: nat, j: nat)
    requires opts.hasCallback && j < |vs|
    ensures Announced(opts, vs, start, total)[j] == Notice(vs[j].path, vs[j].kind == Directory, start + j, total)
  {
    if j > 0 {
      AnnouncedAt(opts, vs[1..], start + 1, total, j - 1);
    }
  }

  lemma {:induction false} AnnouncedAppend(opts: Options, a: seq<Visit>, b: seq<Visit>, start: nat, total: nat)
    ensures Announced(opts, a + b, start, total) == Announced(opts, a, start, total) + Announced(opts, b, start + |a|, total)
  {
    if a == [] {
      assert a + b == b;
    } else if opts.hasCallback {
      assert (a + b)[1..] == a[1..] + b;
      AnnouncedAppend(opts, a[1..], b, start + 1, total);
    }
  }

  /** The notices of a whole first part and a prefix of the rest are those of a prefix. */
  lemma AnnouncedPrefix(opts: Options, a: seq<Visit>, b: seq<Visit>, k: nat, start: nat, total: nat)
    requires k <= |b|
    ensures Announced(opts, a, start, total) + Announced(opts, b[..k], start + |a|, total)
         == Announced(opts, (a + b)[..|a| + k], start, total)
  {
    assert (a + b)[..|a| + k] == a + b[..k];
    AnnouncedAppend(opts, a, b[..k], start, total);
  }

  /** Going from `st` to `s`, a walk over the visits `vs` numbered the first
      `s.current - st.current` of them and sent one notice for each, in order. */
  predicate Progressed(opts: Options, total: nat, st: State, s: State, vs: seq<Visit>) {
    st.current <= s.current <= st.current + |vs| &&
    s.notices == st.notices + Announced(opts, vs[..s.current - st.current], st.current + 1, total)
  }

  lemma ProgressedChain(opts: Options, total: nat, st: State, st1: State, s: State, va: seq<Visit>, vb: seq<Visit>)
    requires Progressed(opts, total, st, st1, va) && st1.current == st.current + |va|
    requires Progressed(opts, total, st1, s, vb)
    ensures Progressed(opts, total, st, s, va + vb)
  {
    var k := s.current - st1.current;
    assert va[..|va|] == va;
    var na := Announced(opts, va, st.current + 1, total);
    var nb := Announced(opts, vb[..k], st1.current + 1, total);
    assert st1.notices == st.notices + na;
    assert s.notices == st.notices + (na + nb);
    AnnouncedPrefix(opts, va, vb, k, st.current + 1, total);
    assert s.current - st.current == |va| + k;
  }

  lemma ProgressedPrefix(opts: Options, total: nat, st: State, st1: State, va: seq<Visit>, vb: seq<Visit>)
    requires Progressed(opts, total, st, st1, va)
    ensures Progressed(opts, total, st, st1, va + vb)
  {
    var k := st1.current - st.current;
    assert (va + vb)[..k] == va[..k];
  }

  /** A walk over a node visits at least the node itself and at most its visits, and all
      of them when it completes. */
  lemma {:induction false} NodeRunCurrent(opts: Options, ro: set<Path>, total: nat, st: State, node: Node, path: Path)
    ensures var (s, status) := NodeRun(opts, ro, total, st, node, path);
      var vs := Visits(node, path);
      st.current < s.current <= st.current + |vs| &&
      (status == Completed ==> s.current == st.current + |vs|)
    decreases node, 1
  {
    var st1 := Arrive(opts, total, st, node, path);
    if node.kind == Directory {
      var (es, out) := CreateDirectorySpec(opts, ro, st1.entries, path);
      if out.Pass? {
        var st2 := st1.(entries := es, stats := st1.stats.(dirsCreated := st1.stats.dirsCreated + 1));
        ChildrenRunCurrent(opts, ro, total, st2, node.children, path);
      }
    }
  }

  lemma {:induction false} ChildrenRunCurrent(opts: Options, ro: set<Path>, total: nat, st: State, cs: seq<Node>, path: Path)
    ensures var (s, status) := ChildrenRun(opts, ro, total, st, cs, path);
      var vs := VisitsForest(cs, path);
      st.current <= s.current <= st.current + |vs| &&
      (status == Completed ==> s.current == st.current + |vs|)
    decreases cs, 0
  {
    if cs != [] {
      var c := cs[0];
      var p := ChildPath(path, c.name);
      var (st1, s1) := NodeRun(opts, ro, total, st, c, p);
      NodeRunCurrent(opts, ro, total, st, c, p);
      if s1 == Completed {
        ChildrenRunCurrent(opts, ro, total, st1, cs[1..], path);
      }
    }
  }

  /** A walk over a node numbers the nodes it visits consecutively from `current + 1`, in
      visit order, and sends exactly one notice per visited node before doing anything
      else with it; when it stops early it has sent the notices of a prefix of the visits
      and no more, so later siblings are never reached. */
  lemma {:induction false} NodeRunProgress(opts: Options, ro: set<Path>, total: nat, st: State, node: Node, path: Path)
    ensures Progressed(opts, total, st, NodeRun(opts, ro, total, st, node, path).0, Visits(node, path))
    decreases node, 1
  {
    if node.kind == Directory {
      DirectoryRunProgress(opts, ro, total, st, node, path);
    } else {
      FileRunProgress(opts, ro, total, st, node, path);
    }
  }

  /** Arriving at a node numbers it and sends its notice. */
  lemma ArriveProgress(opts: Options, total: nat, st: State, node: Node, path: Path)
    ensures Progressed(opts, total, st, Arrive(opts, total, st, node, path), [Visit(path, node.kind)])
  {
    var v0 := Visit(path, node.kind);
    assert [v0][..1] == [v0];
  }

  /** Whatever happens to a file node after its notice leaves the notices and the
      numbering alone. */
  lemma FileRunKeeps(opts: Options, ro: set<Path>, total: nat, st: State, node: Node, path: Path)
    requires node.kind == File
    ensures var st1 := Arrive(opts, total, st, node, path);
      var s := NodeRun(opts, ro, total, st, node, path).0;
      s.notices == st1.notices && s.current == st1.current
  {
  }

  lemma FileRunProgress(opts: Options, ro: set<Path>, total: nat, st: State, node: Node, path: Path)
    requires node.kind == File
    ensures Progressed(opts, total, st, NodeRun(opts, ro, total, st, node, path).0, Visits(node, path))
  {
    ArriveProgress(opts, total, st, node, path);
    FileRunKeeps(opts, ro, total, st, node, path);
    assert Visits(node, path) == [Visit(path, node.kind)];
  }

  lemma {:induction false} DirectoryRunProgress(opts: Options, ro: set<Path>, total: nat, st: State, node: Node, path: Path)
    requires node.kind == Directory
    ensures Progressed(opts, total, st, NodeRun(opts, ro, total, st, node, path).0, Visits(node, path))
    decreases node, 0
  {
    var st1 := Arrive(opts, total, st, node, path);
    var v0 := Visit(path, node.kind);
    ArriveProgress(opts, total, st, node, path);
    var (es, out) := CreateDirectorySpec(opts, ro, st1.entries, path);
    var vf := VisitsForest(node.children, path);
    assert Visits(node, path) == [v0] + vf;
    if out.Pass? {
      var st2 := st1.(entries := es, stats := st1.stats.(dirsCreated := st1.stats.dirsCreated + 1));
      ChildrenRunProgress(opts, ro, total, st2, node.children, path);
      ProgressedChain(opts, total, st, st2, ChildrenRun(opts, ro, total, st2, node.children, path).0, [v0], vf);
    } else {
      ProgressedPrefix(opts, total, st, st1.(entries := es), [v0], vf);
    }
  }

  lemma {:induction false} ChildrenRunProgress(opts: Options, ro: set<Path>, total: nat, st: State, cs: seq<Node>, path: Path)
    ensures Progressed(opts, total, st, ChildrenRun(opts, ro, total, st, cs, path).0, VisitsForest(cs, path))
    decreases cs, 0
  {
    if cs == [] {
      assert Announced(opts, [], st.current + 1, total) == [];
    } else {
      var c := cs[0];
      var p := ChildPath(path, c.name);
      var (st1, s1) := NodeRun(opts, ro, total, st, c, p);
      var va := Visits(c, p);
      var vb := VisitsForest(cs[1..], path);
      assert VisitsForest(cs, path) == va + vb;
      NodeRunProgress(opts, ro, total, st, c, p);
      if s1 != Completed {
        ProgressedPrefix(opts, total, st, st1, va, vb);
      } else {
        NodeRunCurrent(opts, ro, total, st, c, p);
        ChildrenRunProgress(opts, ro, total, st1, cs[1..], path);
        ProgressedChain(opts, total, st, st1, ChildrenRun(opts, ro, total, st1, cs[1..], path).0, va, vb);
      }
    }
  }

  // ---------------------------------------------------------------------------
  // Statistics

  /** How many of the visits are of kind `k`. */
  function CountKind(vs: seq<Visit>, k: Kind): (n: nat)
    ensures n <= |vs|
  {
    if vs == [] then 0 else (if vs[0].kind == k then 1 else 0) + CountKind(vs[1..], k)
  }

  lemma {:induction false} CountKindAppend(a: seq<Visit>, b: seq<Visit>, k: Kind)
    ensures CountKind(a + b, k) == CountKind(a, k) + CountKind(b, k)
  {
    if a == [] {
      assert a + b == b;
    } else {
      assert (a + b)[1..] == a[1..] + b;
      CountKindAppend(a[1..], b, k);
    }
  }

  /** Every visit is a directory or a file. */
  lemma {:induction false} CountKindSplit(vs: seq<Visit>)
    ensures CountKind(vs, Directory) + CountKind(vs, File) == |vs|
  {
    if vs != [] {
      CountKindSplit(vs[1..]);
    }
  }

  /** A walk that completes counts every visited directory in `dirs_created` and every
      visited file in `files_created`, whether it was created, already there or skipped. */
  lemma {:induction false} NodeRunCounts(opts: Options, ro: set<Path>, total: nat, st: State, node: Node, path: Path)
    ensures var (s, status) := NodeRun(opts, ro, total, st, node, path);
      var vs := Visits(node, path);
      status == Completed ==>
        s.stats.dirsCreated == st.stats.dirsCreated + CountKind(vs, Directory) &&
        s.stats.filesCreated == st.stats.filesCreated + CountKind(vs, File)
    decreases node, 1
  {
    var st1 := Arrive(opts, total, st, node, path);
    var vs := Visits(node, path);
    if node.kind == Directory {
      var (es, out) := CreateDirectorySpec(opts, ro, st1.entries, path);
      if out.Pass? {
        var st2 := st1.(entries := es, stats := st1.stats.(dirsCreated := st1.stats.dirsCreated + 1));
        ChildrenRunCounts(opts, ro, total, st2, node.children, path);
        CountKindAppend([Visit(path, Directory)], VisitsForest(node.children, path), Directory);
        CountKindAppend([Visit(path, Directory)], VisitsForest(node.children, path), File);
      }
    }
  }

  lemma {:induction false} ChildrenRunCounts(opts: Options, ro: set<Path>, total: nat, st: State, cs: seq<Node>, path: Path)
    ensures var (s, status) := ChildrenRun(opts, ro, total, st, cs, path);
      var vs := VisitsForest(cs, path);
      status == Completed ==>
        s.stats.dirsCreated == st.stats.dirsCreated + CountKind(vs, Directory) &&
        s.stats.filesCreated == st.stats.filesCreated + CountKind(vs, File)
    decreases cs, 0
  {
    if cs != [] {
      var c := cs[0];
      var p := ChildPath(path, c.name);
      NodeRunCounts(opts, ro, total, st, c, p);
      var (st1, s1) := NodeRun(opts, ro, total, st, c, p);
      if s1 == Completed {
        ChildrenRunCounts(opts, ro, total, st1, cs[1..], path);
        CountKindAppend(Visits(c, p), VisitsForest(cs[1..], path), Directory);
        CountKindAppend(Visits(c, p), VisitsForest(cs[1..], path), File);
      }
    }
  }

  // ---------------------------------------------------------------------------
  // The filesystem

  /** `create_directory` only adds directories; on success, unless in a dry run, the path
      is a directory. It keeps the filesystem well formed. */
  lemma CreateDirectoryEffect(opts: Options, ro: set<Path>, es: Entries, p: Path)
    ensures var (es1, out) := CreateDirectorySpec(opts, ro, es, p);
      Extends(es, es1) &&
      (opts.dryRun ==> es1 == es && out == Pass) &&
      (out.Pass? && !opts.dryRun ==> IsDir(es1, p)) &&
      (WellFormed(es) ==> WellFormed(es1))
  {
    if !opts.dryRun && !Exists(es, p) {
      MakeDirsSpec(es, ro, p);
    }
  }

  /** `create_file` never reports an existing file: with overwriting off an existing path
      is skipped and left as it is, so the `FileAlreadyExists` return is unreachable. */
  lemma CreateFileNeverRefusesExisting(opts: Options, ro: set<Path>, es: Entries, p: Path, content: string)
    ensures var (es1, out) := CreateFileSpec(opts, ro, es, p, content);
      (Exists(es, p) && !opts.overwrite ==> es1 == es && out == Pass) &&
      (out.Fail? ==> out.error.code == CannotCreateDirectory || out.error.code == CannotCreateFile)
  {
  }

  /** `create_file` keeps every entry's kind and, without overwriting, every entry; on
      success, unless in a dry run, the path exists (a file, unless a directory was skipped
      there). It keeps the filesystem well formed. */
  lemma CreateFileEffect(opts: Options, ro: set<Path>, es: Entries, p: Path, content: string)
    ensures var (es1, out) := CreateFileSpec(opts, ro, es, p, content);
      KeepsKinds(es, es1) &&
      (!opts.overwrite ==> Extends(es, es1)) &&
      (opts.dryRun ==> es1 == es && out == Pass) &&
      (out.Pass? && !opts.dryRun ==> Exists(es1, p)) &&
      (out.Pass? && !opts.dryRun && !IsDir(es, p) ==> p in es1 && es1[p].Regular?) &&
      (WellFormed(es) ==> WellFormed(es1))
  {
    if !opts.dryRun && !(Exists(es, p) && !opts.overwrite) {
      var (es1, err) :=
        if |p| >= 2 && !Exists(es, Parent(p)) then MakeDirs(es, ro, Parent(p)) else (es, None);
      if |p| >= 2 && !Exists(es, Parent(p)) {
        MakeDirsSpec(es, ro, Parent(p));
        assert !opts.overwrite ==> p !in es1 by {
          assert !(p <= Parent(p));
        }
      }
      ExtendsKeepsKinds(es, es1);
      if err.None? {
        WriteFileSpec(es1, ro, p, content);
        var written := WriteFile(es1, ro, p, content);
        if written.Some? {
          KeepsKindsTransitive(es, es1, written.value);
        }
      }
    }
  }

  /** Over a whole walk: no entry changes kind or disappears; without overwriting no entry
      changes at all; a dry run changes nothing and never stops on an error; the filesystem
      stays well formed. */
  lemma {:induction false} NodeRunEffect(opts: Options, ro: set<Path>, total: nat, st: State, node: Node, path: Path)
    ensures var (s, status) := NodeRun(opts, ro, total, st, node, path);
      KeepsKinds(st.entries, s.entries) &&
      (!opts.overwrite ==> Extends(st.entries, s.entries)) &&
      (opts.dryRun ==> s.entries == st.entries && !status.Stopped?) &&
      (WellFormed(st.entries) ==> WellFormed(s.entries))
    decreases node, 1
  {
    var st1 := Arrive(opts, total, st, node, path);
    if node.kind == Directory {
      CreateDirectoryEffect(opts, ro, st1.entries, path);
      var (es, out) := CreateDirectorySpec(opts, ro, st1.entries, path);
      ExtendsKeepsKinds(st.entries, es);
      if out.Pass? {
        var st2 := st1.(entries := es, stats := st1.stats.(dirsCreated := st1.stats.dirsCreated + 1));
        ChildrenRunEffect(opts, ro, total, st2, node.children, path);
        var (s, status) := ChildrenRun(opts, ro, total, st2, node.children, path);
        KeepsKindsTransitive(st.entries, es, s.entries);
        if !opts.overwrite {
          ExtendsTransitive(st.entries, es, s.entries);
        }
      }
    } else {
      CreateFileEffect(opts, ro, st1.entries, path, node.content.GetOr(""));
    }
  }

  lemma {:induction false} ChildrenRunEffect(opts: Options, ro: set<Path>, total: nat, st: State, cs: seq<Node>, path: Path)
    ensures var (s, status) := ChildrenRun(opts, ro, total, st, cs, path);
      KeepsKinds(st.entries, s.entries) &&
      (!opts.overwrite ==> Extends(st.entries, s.entries)) &&
      (opts.dryRun ==> s.entries == st.entries && !status.Stopped?) &&
      (WellFormed(st.entries) ==> WellFormed(s.entries))
    decreases cs, 0
  {
    if cs != [] {
      var c := cs[0];
      var p := ChildPath(path, c.name);
      NodeRunEffect(opts, ro, total, st, c, p);
      var (st1, s1) := NodeRun(opts, ro, total, st, c, p);
      if s1 == Completed {
        ChildrenRunEffect(opts, ro, total, st1, cs[1..], path);
        var (s, status) := ChildrenRun(opts, ro, total, st1, cs[1..], path);
        KeepsKindsTransitive(st.entries, st1.entries, s.entries);
        if !opts.overwrite {
          ExtendsTransitive(st.entries, st1.entries, s.entries);
        }
      }
    }
  }

  /** Every visit is on disk with its kind: directories as directories, files as files. */
  predicate Materialized(es: Entries, vs: seq<Visit>) {
    forall j | 0 <= j < |vs| ::
      if vs[j].kind == Directory then IsDir(es, vs[j].path)
      else vs[j].path in es && es[vs[j].path].Regular?
  }

  lemma MaterializedKept(es1: Entries, es2: Entries, vs: seq<Visit>)
    requires Materialized(es1, vs) && KeepsKinds(es1, es2)
    ensures Materialized(es2, vs)
  {
  }

  lemma MaterializedAppend(es: Entries, a: seq<Visit>, b: seq<Visit>)
    requires Materialized(es, a) && Materialized(es, b)
    ensures Materialized(es, a + b)
  {
  }

  /** A walk that completes outside a dry run leaves every visited node on disk as what it
      is: each directory node a directory, each file node a file. */
  lemma {:induction false} NodeRunMaterializes(opts: Options, ro: set<Path>, total: nat, st: State, node: Node, path: Path)
    requires !opts.dryRun
    ensures var (s, status) := NodeRun(opts, ro, total, st, node, path);
      status == Completed ==> Materialized(s.entries, Visits(node, path))
    decreases node, 1
  {
    if node.kind == Directory {
      DirectoryRunMaterializes(opts, ro, total, st, node, path);
    } else {
      FileRunMaterializes(opts, ro, total, st, node, path);
    }
  }

  lemma FileRunMaterializes(opts: Options, ro: set<Path>, total: nat, st: State, node: Node, path: Path)
    requires !opts.dryRun && node.kind == File
    ensures var (s, status) := NodeRun(opts, ro, total, st, node, path);
      status == Completed ==> Materialized(s.entries, Visits(node, path))
  {
    var st1 := Arrive(opts, total, st, node, path);
    CreateFileEffect(opts, ro, st1.entries, path, node.content.GetOr(""));
    assert Visits(node, path) == [Visit(path, node.kind)];
  }

  lemma {:induction false} DirectoryRunMaterializes(opts: Options, ro: set<Path>, total: nat, st: State, node: Node, path: Path)
    requires !opts.dryRun && node.kind == Directory
    ensures var (s, status) := NodeRun(opts, ro, total, st, node, path);
      status == Completed ==> Materialized(s.entries, Visits(node, path))
    decreases node, 0
  {
    var st1 := Arrive(opts, total, st, node, path);
    var v0 := Visit(path, node.kind);
    CreateDirectoryEffect(opts, ro, st1.entries, path);
    var (es, out) := CreateDirectorySpec(opts, ro, st1.entries, path);
    if out.Pass? {
      var st2 := st1.(entries := es, stats := st1.stats.(dirsCreated := st1.stats.dirsCreated + 1));
      ChildrenRunMaterializes(opts, ro, total, st2, node.children, path);
      ChildrenRunEffect(opts, ro, total, st2, node.children, path);
      var (s, status) := ChildrenRun(opts, ro, total, st2, node.children, path);
      if status == Completed {
        assert Materialized(es, [v0]);
        MaterializedKept(es, s.entries, [v0]);
        MaterializedAppend(s.entries, [v0], VisitsForest(node.children, path));
      }
    }
  }

  lemma {:induction false} ChildrenRunMaterializes(opts: Options, ro: set<Path>, total: nat, st: State, cs: seq<Node>, path: Path)
    requires !opts.dryRun
    ensures var (s, status) := ChildrenRun(opts, ro, total, st, cs, path);
      status == Completed ==> Materialized(s.entries, VisitsForest(cs, path))
    decreases cs, 0
  {
    if cs != [] {
      var c := cs[0];
      var p := ChildPath(path, c.name);
      NodeRunMaterializes(opts, ro, total, st, c, p);
      var (st1, s1) := NodeRun(opts, ro, total, st, c, p);
      if s1 == Completed {
        ChildrenRunMaterializes(opts, ro, total, st1, cs[1..], path);
        ChildrenRunEffect(opts, ro, total, st1, cs[1..], path);
        var (s, status) := ChildrenRun(opts, ro, total, st1, cs[1..], path);
        if status == Completed {
          MaterializedKept(st1.entries, s.entries, Visits(c, p));
          MaterializedAppend(s.entries, Visits(c, p), VisitsForest(cs[1..], path));
        }
      }
    }
  }

  /** A directory node whose path is a file stops the walk with `FileAlreadyExists` and
      changes nothing on disk. */
  lemma DirectoryOverFile(opts: Options, ro: set<Path>, total: nat, st: State, node: Node, path: Path)
    requires !opts.dryRun && node.kind == Directory && path != [] && path in st.entries && st.entries[path].Regular?
    ensures var (s, status) := NodeRun(opts, ro, total, st, node, path);
      status == Stopped(Failure(FileAlreadyExists, "Path exists but is not a directory: " + PathText(path))) &&
      s.entries == st.entries && s.stats == st.stats
  {
  }

  /** A file node whose parent path is a file cannot be opened: the walk stops with
      `CannotCreateFile` and the disk is unchanged. */
  lemma FileBelowFile(opts: Options, ro: set<Path>, total: nat, st: State, node: Node, path: Path)
    requires !opts.dryRun && node.kind == File && |path| >= 2 && path !in st.entries
    requires Parent(path) in st.entries && st.entries[Parent(path)].Regular?
    ensures var (s, status) := NodeRun(opts, ro, total, st, node, path);
      status == Stopped(Failure(CannotCreateFile, "Cannot create file: " + PathText(path))) &&
      s.entries == st.entries
  {
    assert WriteFile(st.entries, ro, path, node.content.GetOr("")).None?;
  }

  /** A '/' inside a child's name nests below the entry of that name: after a file "a", a
      file "a/b.txt" in the same directory lands below the file "p/a", cannot be opened,
      and stops the generation with `CannotCreateFile`. */
  lemma NestedNameBelowFile(a: string, b: string)
    requires a == "a" && b == "b.txt"
    ensures var opts := Options(false, false, false, false);
      var root := Node(Directory, "p", None, [Node(File, a, None, []), Node(File, a + "/" + b, None, [])]);
      GenerateSpec(opts, {}, State(map[], NoStats, [], 0), root, ["p"], 0).1 ==
        Failed(Failure(CannotCreateFile, "Cannot create file: p/a/b.txt"))
  {
    var opts := Options(false, false, false, false);
    var fa, fb := Node(File, a, None, []), Node(File, a + "/" + b, None, []);
    var root := Node(Directory, "p", None, [fa, fb]);
    var st := State(map[], NoStats, [], 0);
    var st1 := Arrive(opts, 3, st, root, ["p"]);
    var st2 := st1.(entries := map[["p"] := Dir], stats := st1.stats.(dirsCreated := 1));
    var pb := ["p", a, b];
    var e := Failure(CannotCreateFile, "Cannot create file: " + PathText(pb));
    var r := ChildrenRun(opts, {}, 3, st2, [fa, fb], ["p"]);
    assert r.1 == Stopped(e) by {
      NestedChildren(opts, st2, fa, fb, a, b);
    }
    assert GenerateSpec(opts, {}, st, root, ["p"], 0) == (r.0, Failed(e)) by {
      NestedRootRun(opts, st, root);
      LeavesSize(root, fa, fb);
      assert st.(stats := NoStats, current := 0) == st;
    }
    NestedPathText(a, b);
  }

  /** The two children: "a" is written, and "a/b.txt" below it stops the loop. */
  lemma NestedChildren(opts: Options, st2: State, fa: Node, fb: Node, a: string, b: string)
    requires a == "a" && b == "b.txt" && opts == Options(false, false, false, false)
    requires st2.entries == map[["p"] := Dir]
    requires fa == Node(File, a, None, []) && fb == Node(File, a + "/" + b, None, [])
    ensures ChildrenRun(opts, {}, 3, st2, [fa, fb], ["p"]).1 ==
      Stopped(Failure(CannotCreateFile, "Cannot create file: " + PathText(["p", a, b])))
  {
    NestedChildPaths(a, b);
    var (st3, s3) := NodeRun(opts, {}, 3, st2, fa, ["p", a]);
    NestedFirstFile(opts, st2, fa, a);
    var pb := ["p", a, b];
    assert Parent(pb) == ["p", a];
    FileBelowFile(opts, {}, 3, st3, fb, pb);
    assert [fa, fb][1..] == [fb];
    assert ChildrenRun(opts, {}, 3, st2, [fa, fb], ["p"]) == ChildrenRun(opts, {}, 3, st3, [fb], ["p"]);
  }

  lemma LeavesSize(root: Node, fa: Node, fb: Node)
    requires root.children == [fa, fb] && fa.children == [] && fb.children == []
    ensures Size(root) == 3
  {
    assert Size(fa) == 1 && Size(fb) == 1;
    assert [fa, fb][1..] == [fb] && [fb][1..] == [];
    assert SizeForest([fb]) == 1;
    assert SizeForest([fa, fb]) == 2;
  }

  /** Validation passes and the root directory "p" is created before its children. */
  lemma NestedRootRun(opts: Options, st: State, root: Node)
    requires opts == Options(false, false, false, false) && st == State(map[], NoStats, [], 0)
    requires root.kind == Directory && |root.children| == 2
    ensures ValidateSpec(st.entries, {}, ["p"]) == Pass
    ensures var st1 := Arrive(opts, 3, st, root, ["p"]);
      NodeRun(opts, {}, 3, st, root, ["p"]) ==
      ChildrenRun(opts, {}, 3, st1.(entries := map[["p"] := Dir], stats := st1.stats.(dirsCreated := 1)), root.children, ["p"])
  {
    assert MakeDirs(map[], {}, ["p"]) == (map[["p"] := Dir], None);
  }

  /** The file "a" is written below the directory "p". */
  lemma NestedFirstFile(opts: Options, st: State, fa: Node, a: string)
    requires opts == Options(false, false, false, false) && st.entries == map[["p"] := Dir]
    requires fa == Node(File, a, None, [])
    ensures var (st3, s3) := NodeRun(opts, {}, 3, st, fa, ["p", a]);
      s3 == Completed && st3.entries == st.entries[["p", a] := Regular("")]
  {
    var pa := ["p", a];
    assert Parent(pa) == ["p"];
    assert CreateFileSpec(opts, {}, st.entries, pa, "") == (st.entries[pa := Regular("")], Pass);
  }

  lemma NestedPathText(a: string, b: string)
    requires a == "a" && b == "b.txt"
    ensures PathText(["p", a, b]) == "p/a/b.txt"
  {
    assert Parent(["p", a, b]) == ["p", a];
    assert Parent(["p", a]) == ["p"];
    assert JoinSegments(["p"]) == "p";
    assert JoinSegments(["p", a]) == "p/a";
    assert JoinSegments(["p", a, b]) == "p/a" + "/" + "b.txt";
  }

  /** The paths of the two children: "a" is one segment, "a/b.txt" two. */
  lemma NestedChildPaths(a: string, b: string)
    requires a == "a" && b == "b.txt"
    ensures ChildPath(["p"], a) == ["p", a]
    ensures ChildPath(["p"], a + "/" + b) == ["p", a, b]
  {
    SegmentsOfPlainName(a);
    assert '/' !in b by {
      assert forall k | 0 <= k < |b| :: b[k] != '/';
    }
    SegmentsOfPlainName(b);
    SegmentsJoin(a, b);
  }

  // ---------------------------------------------------------------------------
  // A whole generation

  /** `generate`: a failed validation answers with its error and changes nothing. */
  lemma GenerateRefused(opts: Options, ro: set<Path>, st: State, root: Node, out: Path, elapsedMs: nat)
    requires ValidateSpec(st.entries, ro, out).Fail?
    ensures GenerateSpec(opts, ro, st, root, out, elapsedMs) == (st, Failed(ValidateSpec(st.entries, ro, out).error))
  {
  }

  /** A successful generation has sent one notice per visited node, numbered 1, 2, … in
      visit order against the total `count_nodes(root)`. */
  lemma GenerateNotices(opts: Options, ro: set<Path>, st: State, root: Node, out: Path, elapsedMs: nat)
    ensures var (s, reply) := GenerateSpec(opts, ro, st, root, out, elapsedMs);
      reply.Generated? ==> s.notices == st.notices + Announced(opts, Visits(root, out), 1, Size(root))
  {
    if ValidateSpec(st.entries, ro, out).Pass? {
      var st0 := st.(stats := NoStats, current := 0);
      var vs := Visits(root, out);
      var (s, status) := NodeRun(opts, ro, Size(root), st0, root, out);
      NodeRunProgress(opts, ro, Size(root), st0, root, out);
      if status == Completed {
        NodeRunCurrent(opts, ro, Size(root), st0, root, out);
        assert vs[..s.current] == vs;
      }
    }
  }

  /** A successful generation reports statistics that count each visited node once, as a
      directory or as a file; the counts add up to `count_nodes(root)` exactly when no file
      node has children. */
  lemma GenerateCounts(opts: Options, ro: set<Path>, st: State, root: Node, out: Path, elapsedMs: nat)
    ensures var (s, reply) := GenerateSpec(opts, ro, st, root, out, elapsedMs);
      var vs := Visits(root, out);
      reply.Generated? ==>
        reply.stats == s.stats && s.stats.elapsedMs == elapsedMs &&
        s.stats.dirsCreated == CountKind(vs, Directory) &&
        s.stats.filesCreated == CountKind(vs, File) &&
        s.stats.dirsCreated + s.stats.filesCreated == |vs| <= Size(root) &&
        (s.stats.dirsCreated + s.stats.filesCreated == Size(root) <==> FileLeaves(root))
  {
    if ValidateSpec(st.entries, ro, out).Pass? {
      var st0 := st.(stats := NoStats, current := 0);
      NodeRunCounts(opts, ro, Size(root), st0, root, out);
      CountKindSplit(Visits(root, out));
      VisitsCount(root, out);
    }
  }

  /** Whatever its outcome, a generation keeps every existing entry and its kind, rewrites
      no existing file unless overwriting, touches nothing in a dry run and keeps the
      filesystem well formed; a successful one outside a dry run leaves every visited node
      on disk as what it is. */
  lemma GenerateEffect(opts: Options, ro: set<Path>, st: State, root: Node, out: Path, elapsedMs: nat)
    ensures var (s, reply) := GenerateSpec(opts, ro, st, root, out, elapsedMs);
      KeepsKinds(st.entries, s.entries) &&
      (!opts.overwrite ==> Extends(st.entries, s.entries)) &&
      (opts.dryRun ==> s.entries == st.entries) &&
      (WellFormed(st.entries) ==> WellFormed(s.entries)) &&
      (reply.Generated? && !opts.dryRun ==> Materialized(s.entries, Visits(root, out)))
  {
    if ValidateSpec(st.entries, ro, out).Pass? {
      var st0 := st.(stats := NoStats, current := 0);
      NodeRunEffect(opts, ro, Size(root), st0, root, out);
      if !opts.dryRun {
        NodeRunMaterializes(opts, ro, Size(root), st0, root, out);
      }
    }
  }

  /** A successful generation from a template structure creates exactly one directory or
      file per node of the structure's tree, root included: `count_nodes` and the
      statistics agree, since such a tree never gives a file children. */
  lemma TemplateGenerationCounts(structure: Json, topts: TemplateOptions, ro: set<Path>, es: Entries, elapsedMs: nat)
    requires structure.JObject?
    ensures var root := StructureTree(structure, topts.projectName);
      var (s, reply) := GenerateSpec(GeneratorOptions(topts), ro, State(es, NoStats, [], 0), root, topts.outputDir, elapsedMs);
      reply.Generated? ==> reply.stats.dirsCreated + reply.stats.filesCreated == Size(root)
  {
    var root := StructureTree(structure, topts.projectName);
    StructureFileLeaves(structure, topts.projectName);
    GenerateCounts(GeneratorOptions(topts), ro, State(es, NoStats, [], 0), root, topts.outputDir, elapsedMs);
  }
}
