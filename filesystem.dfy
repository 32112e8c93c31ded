/** The part of the filesystem the generator touches (`std::filesystem::exists`,
    `is_directory`, `create_directories`, `std::ofstream`, `file_size`), as a map from paths
    to entries. A path is the list of its segments below the working directory; the empty
    path is the working directory itself, which always exists and is a directory. Which
    entries may be written is an oracle: the set `readOnly`. */
module FileSystem {
  import opened Wrappers
  import opened Strings

  type Path = seq<string>

  datatype Entry = Dir | Regular(content: string)

  type Entries = map<Path, Entry>

  function Parent(p: Path): (q: Path)
    requires p != []
    ensures |q| == |p| - 1 && q <= p
  {
    p[..|p| - 1]
  }

  /** `std::filesystem::exists`. */
  predicate Exists(es: Entries, p: Path) {
    p == [] || p in es
  }

  /** `std::filesystem::is_directory`. */
  predicate IsDir(es: Entries, p: Path) {
    p == [] || (p in es && es[p] == Dir)
  }

  /** Every entry hangs below a directory: the shape a real filesystem has. */
  predicate WellFormed(es: Entries) {
    forall p | p in es :: p != [] && IsDir(es, Parent(p))
  }

  /** The pieces of a name between its '/' characters: one more than there are '/'. */
  function Pieces(s: string): (ps: seq<string>)
    ensures |ps| >= 1
  {
    if s == [] then [""]
    else
      var rest := Pieces(s[1..]);
      if s[0] == '/' then [""] + rest else [[s[0]] + rest[0]] + rest[1..]
  }

  /** A piece kept as a segment: all but the empty piece (a doubled or trailing '/') and
      "." (the directory itself). */
  function Kept(piece: string): seq<string> {
    if piece == [] || piece == "." then [] else [piece]
  }

  function Named(ps: seq<string>): seq<string> {
    if ps == [] then [] else Kept(ps[0]) + Named(ps[1..])
  }

  /** The segments `path / name` adds to a path. */
  function Segments(name: string): seq<string> {
    Named(Pieces(name))
  }

  /** `path / name`. */
  function ChildPath(p: Path, name: string): (q: Path)
    ensures p <= q
  {
    p + Segments(name)
  }

  /** A name without '/' is one segment of its own (unless it is empty or "."). */
  lemma SegmentsOfPlainName(name: string)
    requires '/' !in name && name != [] && name != "."
    ensures Segments(name) == [name]
  {
    PiecesOfPlain(name);
    assert Named([name]) == Kept(name) + Named([]);
  }

  lemma {:induction false} PiecesOfPlain(s: string)
    requires '/' !in s
    ensures Pieces(s) == [s]
  {
    if s != [] {
      assert forall c | c in s[1..] :: c in s;
      PiecesOfPlain(s[1..]);
      assert [s[0]] + s[1..] == s;
    }
  }

  /** A '/' inside a name nests: the segments of `a/b` are those of `a` followed by those
      of `b`. */
  lemma SegmentsJoin(a: string, b: string)
    ensures Segments(a + "/" + b) == Segments(a) + Segments(b)
  {
    PiecesJoin(a, b);
    NamedAppend(Pieces(a), Pieces(b));
  }

  lemma {:induction false} PiecesJoin(a: string, b: string)
    ensures Pieces(a + "/" + b) == Pieces(a) + Pieces(b)
  {
    var s := a + "/" + b;
    if a == [] {
      assert s == "/" + b;
      assert s[1..] == b;
    } else {
      assert s[0] == a[0] && s[1..] == a[1..] + "/" + b;
      PiecesJoin(a[1..], b);
      var x, y := Pieces(a[1..]), Pieces(b);
      if a[0] != '/' {
        assert (x + y)[0] == x[0] && (x + y)[1..] == x[1..] + y;
        ConcatAssoc([[a[0]] + x[0]], x[1..], y);
      } else {
        ConcatAssoc([""], x, y);
      }
    }
  }

  lemma {:induction false} NamedAppend(x: seq<string>, y: seq<string>)
    ensures Named(x + y) == Named(x) + Named(y)
  {
    if x != [] {
      assert (x + y)[0] == x[0] && (x + y)[1..] == x[1..] + y;
      NamedAppend(x[1..], y);
      ConcatAssoc(Kept(x[0]), Named(x[1..]), Named(y));
    } else {
      assert x + y == y;
    }
  }

  /** Every segment is a real name: not empty, not ".", and without '/'. */
  lemma SegmentsAreNames(name: string)
    ensures forall k | 0 <= k < |Segments(name)| ::
      Segments(name)[k] != [] && Segments(name)[k] != "." && '/' !in Segments(name)[k]
  {
    PiecesHaveNoSlash(name);
    NamedAreNames(Pieces(name));
  }

  lemma {:induction false} PiecesHaveNoSlash(s: string)
    ensures forall k | 0 <= k < |Pieces(s)| :: '/' !in Pieces(s)[k]
  {
    if s != [] {
      PiecesHaveNoSlash(s[1..]);
    }
  }

  lemma {:induction false} NamedAreNames(ps: seq<string>)
    ensures forall k | 0 <= k < |Named(ps)| :: Named(ps)[k] != [] && Named(ps)[k] != "." && Named(ps)[k] in ps
  {
    if ps != [] {
      NamedAreNames(ps[1..]);
    }
  }

  /** `path.string()`, relative to the working directory. */
  function PathText(p: Path): (s: string)
    ensures p == [] ==> s == "."
  {
    if p == [] then "." else JoinSegments(p)
  }

  function JoinSegments(p: Path): string
    requires p != []
  {
    if |p| == 1 then p[0] else JoinSegments(Parent(p)) + "/" + p[|p| - 1]
  }

  /** The texts of the two ways `create_directories` fails here. */
  const NotADirectoryText: string := "Not a directory"
  const PermissionDeniedText: string := "Permission denied"

  /** Creating a directory or file inside `d`, or rewriting the file `d`, is allowed. */
  predicate Writable(ro: set<Path>, d: Path) {
    d !in ro
  }

  /** `std::filesystem::create_directories(p, ec)`: creates the missing directories from the
      top down; an existing prefix that is not a directory, or a missing one whose parent
      may not be written, stops it with an error, keeping what was already created. */
  function MakeDirs(es: Entries, ro: set<Path>, p: Path): (r: (Entries, Option<string>))
    decreases |p|
  {
    if Exists(es, p) then
      (es, if IsDir(es, p) then None else Some(NotADirectoryText))
    else
      var (es1, err) := MakeDirs(es, ro, Parent(p));
      if err.Some? then (es1, err)
      else if !Writable(ro, Parent(p)) then (es1, Some(PermissionDeniedText))
      else (es1[p := Dir], None)
  }

  /** `std::ofstream(p)` followed by the write: the file gets `content` (truncating an
      existing one), or opening fails and nothing changes. */
  function WriteFile(es: Entries, ro: set<Path>, p: Path, content: string): (r: Option<Entries>)
  {
    if p == [] then None
    else if p in es then
      if es[p] == Dir || !Writable(ro, p) then None else Some(es[p := Regular(content)])
    else if IsDir(es, Parent(p)) && Writable(ro, Parent(p)) then Some(es[p := Regular(content)])
    else None
  }

  /** `es2` keeps every entry of `es1` and its kind (contents of files may differ). */
  predicate KeepsKinds(es1: Entries, es2: Entries) {
    forall p | p in es1 :: p in es2 && (es2[p] == Dir <==> es1[p] == Dir)
  }

  /** `es2` keeps every entry of `es1` unchanged. */
  predicate Extends(es1: Entries, es2: Entries) {
    forall p | p in es1 :: p in es2 && es2[p] == es1[p]
  }

  lemma ExtendsKeepsKinds(es1: Entries, es2: Entries)
    requires Extends(es1, es2)
    ensures KeepsKinds(es1, es2)
  {
  }

  lemma KeepsKindsTransitive(es1: Entries, es2: Entries, es3: Entries)
    requires KeepsKinds(es1, es2) && KeepsKinds(es2, es3)
    ensures KeepsKinds(es1, es3)
  {
  }

  lemma ExtendsTransitive(es1: Entries, es2: Entries, es3: Entries)
    requires Extends(es1, es2) && Extends(es2, es3)
    ensures Extends(es1, es3)
  {
  }

  /** `create_directories` only adds directories, each of them a prefix of `p`; it keeps the
      filesystem well formed, and on success `p` is a directory. */
  lemma {:induction false} MakeDirsSpec(es: Entries, ro: set<Path>, p: Path)
    ensures var (es1, err) := MakeDirs(es, ro, p);
      Extends(es, es1) &&
      (forall q | q in es1 && q !in es :: es1[q] == Dir && q <= p) &&
      (err.None? ==> IsDir(es1, p)) &&
      (WellFormed(es) ==> WellFormed(es1))
    decreases |p|
  {
    if !Exists(es, p) {
      var (es1, err) := MakeDirs(es, ro, Parent(p));
      MakeDirsSpec(es, ro, Parent(p));
      if err.None? && Writable(ro, Parent(p)) {
        var es2 := es1[p := Dir];
        assert MakeDirs(es, ro, p) == (es2, None);
        assert p !in es1 by {
          assert p !in es;
          assert !(p <= Parent(p));
        }
        forall q | q in es2 && q !in es ensures es2[q] == Dir && q <= p {
          if q != p {
            assert q <= Parent(p);
          }
        }
      }
    }
  }

  /** An existing path is left untouched when `create_directories` fails on it. */
  lemma MakeDirsOnExisting(es: Entries, ro: set<Path>, p: Path)
    requires Exists(es, p)
    ensures MakeDirs(es, ro, p) == (es, if IsDir(es, p) then None else Some(NotADirectoryText))
  {
  }

  /** A successful write makes `p` a file holding `content` and changes nothing else; it
      never turns a directory into a file, and keeps the filesystem well formed. */
  lemma WriteFileSpec(es: Entries, ro: set<Path>, p: Path, content: string)
    ensures var r := WriteFile(es, ro, p, content);
      (r.Some? <==> p != [] && (if p in es then es[p] != Dir && Writable(ro, p)
                                else IsDir(es, Parent(p)) && Writable(ro, Parent(p)))) &&
      (r.Some? ==> r.value == es[p := Regular(content)] && KeepsKinds(es, r.value)) &&
      (r.Some? && WellFormed(es) ==> WellFormed(r.value))
  {
  }

  /** The number of bytes of `s` in UTF-8, which `std::filesystem::file_size` reports for a
      file holding `s`. */
  function Utf8Length(s: string): (n: nat)
    ensures n >= |s| && n <= 4 * |s|
  {
    if s == [] then 0
    else
      var c := s[|s| - 1] as int;
      Utf8Length(s[..|s| - 1]) + (if c < 0x80 then 1 else if c < 0x800 then 2 else if c < 0x1_0000 then 3 else 4)
  }

  /** The disk: the entries change as the generator works, which ones may be written
      does not. */
  class Disk {
    var entries: Entries
    const readOnly: set<Path>

    constructor (entries: Entries, readOnly: set<Path>)
      ensures this.entries == entries && this.readOnly == readOnly
    {
      this.entries := entries;
      this.readOnly := readOnly;
    }

    /** `std::filesystem::create_directories(p, ec)`; `err` is `ec.message()` when set. */
    method CreateDirectories(p: Path) returns (err: Option<string>)
      modifies this
      ensures (entries, err) == MakeDirs(old(entries), readOnly, p)
    {
      var r := MakeDirs(entries, readOnly, p);
      entries := r.0;
      err := r.1;
    }

    /** Opening `p` with `std::ofstream` and writing `content`; `false` when it cannot be
        opened. */
    method Write(p: Path, content: string) returns (ok: bool)
      modifies this
      ensures var r := WriteFile(old(entries), readOnly, p, content);
        ok == r.Some? && entries == (if ok then r.value else old(entries))
    {
      var r := WriteFile(entries, readOnly, p, content);
      ok := r.Some?;
      if ok {
        entries := r.value;
      }
    }
  }
}
