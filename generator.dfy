/** `FileGenerator` (src/core/generator.cpp): writes a tree to the filesystem depth-first,
    root first, stopping at the first error, and reports progress and statistics; and
    `TemplateGenerator::generate_from_json`, which does the same for a JSON structure. */
module Generator {
  import opened Wrappers
  import opened Errors
  import opened Strings
  import opened Nodes
  import opened FileSystem
  import opened Json

  /** `FileGenerator::Options`; `hasCallback` says whether a progress callback is set. */
  datatype Options = Options(dryRun: bool, overwrite: bool, verbose: bool, hasCallback: bool)

  /** `GenerationStats` of the generator. */
  datatype Stats = Stats(filesCreated: nat, dirsCreated: nat, totalSize: nat, elapsedMs: nat)

  const NoStats: Stats := Stats(0, 0, 0, 0)

  /** One call of the progress callback: `(path, is_directory, current, total)`. */
  datatype Notice = Notice(path: Path, isDirectory: bool, current: nat, total: nat)

  /** How a walk over a subtree ends: it finished, it returned an error, or
      `std::filesystem::file_size` threw because a file node's path is a directory. */
  datatype Status = Completed | Stopped(error: Error) | Aborted

  /** What `generate` gives its caller: the statistics, an error, or the exception. */
  datatype Reply = Generated(stats: Stats) | Failed(error: Error) | Threw

  /** Everything a walk changes: the filesystem, the statistics, the callback's record and
      the running node number `current`. */
  datatype State = State(entries: Entries, stats: Stats, notices: seq<Notice>, current: nat)

  // ---------------------------------------------------------------------------
  // Statistics text

  /** `GenerationStats::to_string`: four labelled lines (grouped from the right). */
  function StatsToString(s: Stats): string {
    "Statistics:\n  Files created: " + (NatToString(s.filesCreated)
    + ("\n  Directories created: " + (NatToString(s.dirsCreated)
    + ("\n  Total size: " + (NatToString(s.totalSize)
    + (" bytes\n  Time elapsed: " + (NatToString(s.elapsedMs) + "ms")))))))
  }

  /** The text tells the statistics apart: different statistics print differently. */
  lemma StatsToStringInjective(a: Stats, b: Stats)
    requires StatsToString(a) == StatsToString(b)
    ensures a == b
  {
    var p1, p2, p3, p4 := "Statistics:\n  Files created: ", "\n  Directories created: ",
      "\n  Total size: ", " bytes\n  Time elapsed: ";
    var fa, da, sa, ea := NatToString(a.filesCreated), NatToString(a.dirsCreated),
      NatToString(a.totalSize), NatToString(a.elapsedMs);
    var fb, db, sb, eb := NatToString(b.filesCreated), NatToString(b.dirsCreated),
      NatToString(b.totalSize), NatToString(b.elapsedMs);
    var ea1, eb1 := ea + "ms", eb + "ms";
    var sa1, sb1 := sa + (p4 + ea1), sb + (p4 + eb1);
    var da1, db1 := da + (p3 + sa1), db + (p3 + sb1);
    var fa1, fb1 := fa + (p2 + da1), fb + (p2 + db1);
    PrefixCancel(p1, fa1, fb1);
    DigitsSplit(fa, p2 + da1, fb, p2 + db1);
    PrefixCancel(p2, da1, db1);
    DigitsSplit(da, p3 + sa1, db, p3 + sb1);
    PrefixCancel(p3, sa1, sb1);
    DigitsSplit(sa, p4 + ea1, sb, p4 + eb1);
    PrefixCancel(p4, ea1, eb1);
    DigitsSplit(ea, "ms", eb, "ms");
    NatToStringInjective(a.filesCreated, b.filesCreated);
    NatToStringInjective(a.dirsCreated, b.dirsCreated);
    NatToStringInjective(a.totalSize, b.totalSize);
    NatToStringInjective(a.elapsedMs, b.elapsedMs);
  }

  // ---------------------------------------------------------------------------
  // The single steps

  /** `should_skip_existing`: an existing file is skipped exactly when not overwriting. */
  predicate ShouldSkipExisting(opts: Options, path: Path) {
    !opts.overwrite
  }

  /** `create_directory`. */
  function CreateDirectorySpec(opts: Options, ro: set<Path>, es: Entries, p: Path): (Entries, Outcome) {
    if opts.dryRun then (es, Pass)
    else if Exists(es, p) then
      if IsDir(es, p) then (es, Pass)
      else (es, Fail(Failure(FileAlreadyExists, "Path exists but is not a directory: " + PathText(p))))
    else
      var (es1, err) := MakeDirs(es, ro, p);
      if err.Some? then (es1, Fail(Error(CannotCreateDirectory, "Cannot create directory: " + PathText(p), err)))
      else (es1, Pass)
  }

  /** `create_file`. */
  function CreateFileSpec(opts: Options, ro: set<Path>, es: Entries, p: Path, content: string): (Entries, Outcome) {
    if opts.dryRun then (es, Pass)
    else if Exists(es, p) && !opts.overwrite then
      if ShouldSkipExisting(opts, p) then (es, Pass)
      else (es, Fail(Failure(FileAlreadyExists, "File already exists: " + PathText(p))))
    else
      var (es1, err) :=
        if |p| >= 2 && !Exists(es, Parent(p)) then MakeDirs(es, ro, Parent(p)) else (es, None);
      if err.Some? then
        (es1, Fail(Error(CannotCreateDirectory, "Cannot create parent directory: " + PathText(Parent(p)), err)))
      else
        var written := WriteFile(es1, ro, p, content);
        if written.None? then (es1, Fail(Failure(CannotCreateFile, "Cannot create file: " + PathText(p))))
        else (written.value, Pass)
  }

  /** `validate` with `Validator::validate_path_writable`: the parent of the output path
      must exist (an output path of one segment has the working directory as parent), and
      a probe file must be creatable in it. The probe is removed again. */
  function ValidateSpec(es: Entries, ro: set<Path>, out: Path): Outcome {
    if |out| >= 2 && !Exists(es, Parent(out)) then
      Fail(Failure(DirectoryNotFound, "Parent directory does not exist: " + PathText(Parent(out))))
    else
      var probe := if |out| <= 1 then [] else Parent(out);
      if !Exists(es, probe) then
        Fail(Failure(DirectoryNotFound, "Parent directory does not exist: " + PathText(probe)))
      else if !IsDir(es, probe) || !Writable(ro, probe) then
        Fail(Failure(ErrorCode.PermissionDenied, "Cannot write to directory: " + PathText(probe)))
      else Pass
  }

  /** `notify_progress`: one notice when a callback is set (the verbose log line is
      commented out in the source). */
  function Announce(opts: Options, p: Path, isDirectory: bool, current: nat, total: nat): seq<Notice> {
    if opts.hasCallback then [Notice(p, isDirectory, current, total)] else []
  }

  // ---------------------------------------------------------------------------
  // The walk

  /** The start of `generate_node`: the node gets the next number and is announced. */
  function Arrive(opts: Options, total: nat, st: State, node: Node, path: Path): (st1: State)
    ensures st1.entries == st.entries && st1.stats == st.stats && st1.current == st.current + 1
  {
    var cur := st.current + 1;
    st.(current := cur, notices := st.notices + Announce(opts, path, node.kind == Directory, cur, total))
  }

  /** `generate_node` on `node` at `path`: number and announce the node, create it, count
      it, and for a directory walk the children in order, each at `path / name`
      (`ChildPath`: a '/' inside a name nests). A file node's children are not visited. */
  function NodeRun(opts: Options, ro: set<Path>, total: nat, st: State, node: Node, path: Path): (State, Status)
    decreases node, 1
  {
    var st1 := Arrive(opts, total, st, node, path);
    if node.kind == Directory then
      var (es, out) := CreateDirectorySpec(opts, ro, st1.entries, path);
      if out.Fail? then (st1.(entries := es), Stopped(out.error))
      else
        var st2 := st1.(entries := es, stats := st1.stats.(dirsCreated := st1.stats.dirsCreated + 1));
        ChildrenRun(opts, ro, total, st2, node.children, path)
    else
      var (es, out) := CreateFileSpec(opts, ro, st1.entries, path, node.content.GetOr(""));
      if out.Fail? then (st1.(entries := es), Stopped(out.error))
      else
        var st2 := st1.(entries := es, stats := st1.stats.(filesCreated := st1.stats.filesCreated + 1));
        if !Exists(es, path) then (st2, Completed)
        else if IsDir(es, path) then (st2, Aborted)
        else (st2.(stats := st2.stats.(totalSize := st2.stats.totalSize + Utf8Length(es[path].content))), Completed)
  }

  /** The children loop of `generate_node`: each child in turn, stopping at the first one
      that does not complete. */
  function ChildrenRun(opts: Options, ro: set<Path>, total: nat, st: State, cs: seq<Node>, path: Path): (State, Status)
    decreases cs, 0
  {
    if cs == [] then (st, Completed)
    else
      var (st1, status) := NodeRun(opts, ro, total, st, cs[0], ChildPath(path, cs[0].name));
      if status != Completed then (st1, status)
      else ChildrenRun(opts, ro, total, st1, cs[1..], path)
  }

  /** `generate`: validate, then reset the statistics and walk the tree from the root,
      which stands for `out` itself; `elapsedMs` is the time the clock measured. */
  function GenerateSpec(opts: Options, ro: set<Path>, st: State, root: Node, out: Path, elapsedMs: nat): (State, Reply) {
    match ValidateSpec(st.entries, ro, out)
    case Fail(e) => (st, Failed(e))
    case Pass =>
      var (st1, status) := NodeRun(opts, ro, Size(root), st.(stats := NoStats, current := 0), root, out);
      match status
      case Completed =>
        var stats := st1.stats.(elapsedMs := elapsedMs);
        (st1.(stats := stats), Generated(stats))
      case Stopped(e) => (st1, Failed(e))
      case Aborted => (st1, Threw)
  }

  // ---------------------------------------------------------------------------
  // The generator

  class FileGenerator {
    const options: Options
    const disk: Disk
    var stats: Stats
    /** The calls the progress callback received, in order. */
    var notices: seq<Notice>

    constructor (options: Options, disk: Disk)
      ensures this.options == options && this.disk == disk && stats == NoStats && notices == []
    {
      this.options := options;
      this.disk := disk;
      stats := NoStats;
      notices := [];
    }

    method CreateFile(path: Path, content: string) returns (r: Outcome)
      modifies disk
      ensures (disk.entries, r) == CreateFileSpec(options, disk.readOnly, old(disk.entries), path, content)
    {
      if options.dryRun {
        return Pass;
      }
      if Exists(disk.entries, path) && !options.overwrite {
        if ShouldSkipExisting(options, path) {
          return Pass;
        }
        return Fail(Failure(FileAlreadyExists, "File already exists: " + PathText(path)));
      }
      if |path| >= 2 && !Exists(disk.entries, Parent(path)) {
        var err := disk.CreateDirectories(Parent(path));
        if err.Some? {
          return Fail(Error(CannotCreateDirectory, "Cannot create parent directory: " + PathText(Parent(path)), err));
        }
      }
      var ok := disk.Write(path, content);
      if !ok {
        return Fail(Failure(CannotCreateFile, "Cannot create file: " + PathText(path)));
      }
      r := Pass;
    }

    method CreateDirectory(path: Path) returns (r: Outcome)
      modifies disk
      ensures (disk.entries, r) == CreateDirectorySpec(options, disk.readOnly, old(disk.entries), path)
    {
      if options.dryRun {
        return Pass;
      }
      if Exists(disk.entries, path) {
        if IsDir(disk.entries, path) {
          return Pass;
        }
        return Fail(Failure(FileAlreadyExists, "Path exists but is not a directory: " + PathText(path)));
      }
      var err := disk.CreateDirectories(path);
      if err.Some? {
        return Fail(Error(CannotCreateDirectory, "Cannot create directory: " + PathText(path), err));
      }
      r := Pass;
    }

    method Validate(root: Node, out: Path) returns (r: Outcome)
      ensures r == ValidateSpec(disk.entries, disk.readOnly, out)
    {
      if |out| >= 2 && !Exists(disk.entries, Parent(out)) {
        return Fail(Failure(DirectoryNotFound, "Parent directory does not exist: " + PathText(Parent(out))));
      }
      var probe := if |out| <= 1 then [] else Parent(out);
      if !Exists(disk.entries, probe) {
        return Fail(Failure(DirectoryNotFound, "Parent directory does not exist: " + PathText(probe)));
      }
      if !IsDir(disk.entries, probe) || !Writable(disk.readOnly, probe) {
        return Fail(Failure(ErrorCode.PermissionDenied, "Cannot write to directory: " + PathText(probe)));
      }
      r := Pass;
    }

    method NotifyProgress(path: Path, isDirectory: bool, current: nat, total: nat)
      modifies this
      ensures notices == old(notices) + Announce(options, path, isDirectory, current, total)
      ensures stats == old(stats)
    {
      if options.hasCallback {
        notices := notices + [Notice(path, isDirectory, current, total)];
      }
    }

    method GenerateNode(node: Node, path: Path, current: nat, total: nat) returns (status: Status, next: nat)
      modifies this, disk
      ensures var (st, s) := NodeRun(options, disk.readOnly, total,
                                     State(old(disk.entries), old(stats), old(notices), current), node, path);
        status == s && disk.entries == st.entries && stats == st.stats && notices == st.notices && next == st.current
      decreases node, 1
    {
      next := current + 1;
      NotifyProgress(path, node.kind == Directory, next, total);
      if node.kind == Directory {
        var r := CreateDirectory(path);
        if r.Fail? {
          return Stopped(r.error), next;
        }
        stats := stats.(dirsCreated := stats.dirsCreated + 1);
        status, next := GenerateChildren(node.children, path, next, total);
        return;
      }
      var r := CreateFile(path, node.content.GetOr(""));
      if r.Fail? {
        return Stopped(r.error), next;
      }
      stats := stats.(filesCreated := stats.filesCreated + 1);
      if Exists(disk.entries, path) {
        if IsDir(disk.entries, path) {
          return Aborted, next;
        }
        stats := stats.(totalSize := stats.totalSize + Utf8Length(disk.entries[path].content));
      }
      status := Completed;
    }

    /** The loop of `generate_node` over a directory's children, each at `path / name`
        (`ChildPath`), returning at the first one that does not complete. */
    method GenerateChildren(children: seq<Node>, path: Path, current: nat, total: nat) returns (status: Status, next: nat)
      modifies this, disk
      ensures var (st, s) := ChildrenRun(options, disk.readOnly, total,
                                         State(old(disk.entries), old(stats), old(notices), current), children, path);
        status == s && disk.entries == st.entries && stats == st.stats && notices == st.notices && next == st.current
      decreases children, 0
    {
      ghost var start := State(disk.entries, stats, notices, current);
      next := current;
      for i := 0 to |children|
        invariant ChildrenRun(options, disk.readOnly, total, start, children, path)
               == ChildrenRun(options, disk.readOnly, total, State(disk.entries, stats, notices, next), children[i..], path)
      {
        assert children[i..][1..] == children[i + 1..];
        var child := children[i];
        var s;
        s, next := GenerateNode(child, ChildPath(path, child.name), next, total);
        if s != Completed {
          return s, next;
        }
      }
      status := Completed;
    }

    /** `count_nodes`: the number of nodes of the subtree. */
    method CountNodes(node: Node) returns (count: nat)
      ensures count == Size(node)
      decreases node
    {
      count := 1;
      var children := node.children;
      for i := 0 to |children|
        invariant count == 1 + SizeForest(children[..i])
      {
        var c := CountNodes(children[i]);
        SizeForestAppend(children[..i], children[i]);
        assert children[..i + 1] == children[..i] + [children[i]];
        count := count + c;
      }
      assert children[..|children|] == children;
    }

    method Generate(root: Node, out: Path, elapsedMs: nat) returns (r: Reply)
      modifies this, disk
      ensures var (st, reply) := GenerateSpec(options, disk.readOnly,
                                              State(old(disk.entries), old(stats), old(notices), 0), root, out, elapsedMs);
        r == reply && disk.entries == st.entries && stats == st.stats && notices == st.notices
    {
      var v := Validate(root, out);
      if v.Fail? {
        return Failed(v.error);
      }
      stats := NoStats;
      var total := CountNodes(root);
      var status, _ := GenerateNode(root, out, 0, total);
      match status {
        case Completed =>
          stats := stats.(elapsedMs := elapsedMs);
          r := Generated(stats);
        case Stopped(e) =>
          r := Failed(e);
        case Aborted =>
          r := Threw;
      }
    }
  }

  // ---------------------------------------------------------------------------
  // Generation from a template structure

  /** `TemplateGenerator::TemplateOptions`; `hasCallback` says whether a progress callback
      is set. */
  datatype TemplateOptions = TemplateOptions(projectName: string, outputDir: Path, dryRun: bool, verbose: bool, hasCallback: bool)

  /** The `FileGenerator::Options` that `generate_from_json` builds: the template's switches,
      with `overwrite` left at its default, off. */
  function GeneratorOptions(t: TemplateOptions): Options {
    Options(t.dryRun, false, t.verbose, t.hasCallback)
  }

  /** `TemplateGenerator::generate_from_json`: a structure that is not an object is refused
      with `InvalidJSONFormat` before anything happens; otherwise its tree, rooted at a
      directory named after the project, is generated at the output directory by a fresh
      generator, whose callback record is returned beside the reply. */
  method GenerateFromJson(structure: Json, topts: TemplateOptions, disk: Disk, elapsedMs: nat)
      returns (r: Reply, notices: seq<Notice>)
    modifies disk
    ensures !structure.JObject? ==>
      r == Failed(Failure(InvalidJSONFormat, "Template structure must be a JSON object")) &&
      disk.entries == old(disk.entries) && notices == []
    ensures structure.JObject? ==>
      var (st, reply) := GenerateSpec(GeneratorOptions(topts), disk.readOnly, State(old(disk.entries), NoStats, [], 0),
                                      StructureTree(structure, topts.projectName), topts.outputDir, elapsedMs);
      r == reply && disk.entries == st.entries && notices == st.notices
  {
    var tree := JsonToNodeTree(structure, topts.projectName);
    if tree.Err? {
      return Failed(tree.error), [];
    }
    var generator := new FileGenerator(GeneratorOptions(topts), disk);
    r := generator.Generate(tree.value, topts.outputDir, elapsedMs);
    notices := generator.notices;
  }
}
