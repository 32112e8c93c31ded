/** The tree-format parser of src/core/parser.cpp (`MarkdownParser`): selects the lines of
    a document that look like a drawn tree, measures their indentation, strips the
    branch-drawing glyphs from them and assembles a tree with a stack of open nodes.

    Text is a sequence of Unicode code points standing for the UTF-8 bytes the source
    reads; the glyphs it searches for are multi-byte sequences that can only match whole
    code points, so searching code points finds exactly what the byte search finds. */
module Parser {
  import opened Wrappers
  import opened Errors
  import opened Strings
  import opened Nodes

  const Tee: char := '\U{251C}'          // "├"
  const Corner: char := '\U{2514}'       // "└"
  const Vertical: char := '\U{2502}'     // "│"
  const Horizontal: char := '\U{2500}'   // "─"

  const Fence: string := "```"

  // ---------------------------------------------------------------------------
  // Splitting into lines (`std::getline` over the document)

  /** Index of the first '\n' at or after `from`, or `|s|`. */
  function NextNewline(s: string, from: nat): (i: nat)
    requires from <= |s|
    ensures from <= i <= |s| && (i < |s| ==> s[i] == '\n')
    ensures forall j | from <= j < i :: s[j] != '\n'
    decreases |s| - from
  {
    if from == |s| || s[from] == '\n' then from else NextNewline(s, from + 1)
  }

  /** The lines `std::getline` yields: text between newlines; a last line without a
      terminating newline is yielded too, an empty one after the final newline is not. */
  function SplitLines(s: string): (lines: seq<string>)
    ensures forall l | l in lines :: '\n' !in l
    decreases |s|
  {
    if s == [] then []
    else
      var i := NextNewline(s, 0);
      if i == |s| then [s] else [s[..i]] + SplitLines(s[i + 1..])
  }

  /** Joining the lines back, each with its newline, gives the document, plus a final
      newline when it had none. */
  lemma {:induction false} SplitLinesRoundTrip(s: string)
    ensures Unlines(SplitLines(s)) == if s == [] || s[|s| - 1] == '\n' then s else s + "\n"
    decreases |s|
  {
    if s != [] {
      var i := NextNewline(s, 0);
      if i < |s| {
        var rest := s[i + 1..];
        SplitLinesRoundTrip(rest);
        SplitAt(s, i);
        UnlinesFirst(s, i);
        var head := s[..i] + "\n";
        if rest == [] {
          assert s == head + rest;
        } else if rest[|rest| - 1] == '\n' {
          assert s[|s| - 1] == '\n';
        } else {
          assert s[|s| - 1] != '\n';
          ConcatAssoc(head, rest, "\n");
        }
      } else {
        assert '\n' !in s;
      }
    }
  }

  /** The lines of a document with a newline at `i`, joined back, start with its text
      before `i` and that newline. */
  lemma UnlinesFirst(s: string, i: nat)
    requires i == NextNewline(s, 0) < |s|
    ensures Unlines(SplitLines(s)) == (s[..i] + "\n") + Unlines(SplitLines(s[i + 1..]))
  {
    var lines := SplitLines(s);
    assert lines == [s[..i]] + SplitLines(s[i + 1..]);
    assert lines[0] == s[..i] && lines[1..] == SplitLines(s[i + 1..]);
  }

  lemma SplitAt(s: string, i: nat)
    requires i < |s| && s[i] == '\n'
    ensures s == s[..i] + "\n" + s[i + 1..]
    ensures s[i + 1..] != [] ==> s[i + 1..][|s[i + 1..]| - 1] == s[|s| - 1]
  {
  }

  // ---------------------------------------------------------------------------
  // Line selection (`is_tree_line` and the loop of `parse_tree_structure`)

  predicate HasFence(line: string) {
    Contains(line, Fence)
  }

  /** `find_first_not_of(" \t") != npos`. */
  predicate HasNonBlank(line: string) {
    exists i | 0 <= i < |line| :: line[i] != ' ' && line[i] != '\t'
  }

  /** `is_tree_line`: a non-empty line containing a glyph or '/', or a non-blank line
      containing '.' (the source tests '/' a second time in that last clause). */
  predicate IsTreeLine(line: string) {
    line != [] &&
    (Contains(line, [Tee]) || Contains(line, [Corner]) || Contains(line, [Vertical]) ||
     Contains(line, [Horizontal]) || Contains(line, "/") ||
     (HasNonBlank(line) && (Contains(line, ".") || Contains(line, "/"))))
  }

  /** The same test stated over characters. */
  lemma TreeLineChars(line: string)
    ensures IsTreeLine(line) <==>
      (Tee in line || Corner in line || Vertical in line || Horizontal in line || '/' in line ||
       ('.' in line && HasNonBlank(line)))
  {
    ContainsChar(line, Tee);
    ContainsChar(line, Corner);
    ContainsChar(line, Vertical);
    ContainsChar(line, Horizontal);
    ContainsChar(line, '/');
    ContainsChar(line, '.');
  }

  /** Number of fence lines among `lines`. */
  function FenceCount(lines: seq<string>): nat {
    if lines == [] then 0
    else FenceCount(lines[..|lines| - 1]) + (if HasFence(lines[|lines| - 1]) then 1 else 0)
  }

  /** Line `i` lies inside a fenced block: an odd number of fence lines precede it. */
  predicate InsideFence(lines: seq<string>, i: nat)
    requires i <= |lines|
  {
    FenceCount(lines[..i]) % 2 == 1
  }

  /** Line `i` is collected: it is not a fence line, and it is inside a fence or tree-like. */
  predicate Kept(lines: seq<string>, i: nat)
    requires i < |lines|
  {
    !HasFence(lines[i]) && (InsideFence(lines, i) || IsTreeLine(lines[i]))
  }

  /** The kept lines, in document order. */
  function Selected(lines: seq<string>): seq<string> {
    if lines == [] then []
    else
      var n := |lines| - 1;
      Selected(lines[..n]) + (if Kept(lines, n) then [lines[n]] else [])
  }

  /** One more line: it is collected when kept, and a fence line toggles the fence. */
  lemma SelectStep(lines: seq<string>, i: nat)
    requires i < |lines|
    ensures Selected(lines[..i + 1]) == Selected(lines[..i]) + (if Kept(lines, i) then [lines[i]] else [])
    ensures InsideFence(lines, i + 1) <==> (InsideFence(lines, i) != HasFence(lines[i]))
  {
    var pre := lines[..i + 1];
    assert pre[..i] == lines[..i];
    assert pre[i] == lines[i];
    assert Kept(pre, i) == Kept(lines, i);
  }

  /** A collected line never contains a fence marker. */
  lemma {:induction false} SelectedHasNoFence(lines: seq<string>)
    ensures forall l | l in Selected(lines) :: !HasFence(l)
  {
    if lines != [] {
      SelectedHasNoFence(lines[..|lines| - 1]);
    }
  }

  /** Nothing is collected exactly when no line is kept. */
  lemma {:induction false} SelectedEmpty(lines: seq<string>)
    ensures Selected(lines) == [] <==> forall i | 0 <= i < |lines| :: !Kept(lines, i)
  {
    if lines != [] {
      var n := |lines| - 1;
      SelectedEmpty(lines[..n]);
      assert forall i | 0 <= i < n :: Kept(lines[..n], i) == Kept(lines, i) by {
        forall i | 0 <= i < n ensures Kept(lines[..n], i) == Kept(lines, i) {
          assert lines[..n][..i] == lines[..i];
        }
      }
    }
  }

  // ---------------------------------------------------------------------------
  // Indentation (`calculate_indent`)

  /** The characters `calculate_indent` counts. The source also compares each `char`
      with the multi-byte literals '├', '└', '─' and '│'; a `char` never equals such a
      literal, so those comparisons are always false and are left out here. */
  predicate IndentChar(c: char) {
    c == ' ' || c == '\t' || c == '|' || c == '/' || c == '\\'
  }

  /** Length of the longest prefix made of indentation characters. */
  function LeadingRun(s: string): (n: nat)
    ensures n <= |s|
    ensures forall i | 0 <= i < n :: IndentChar(s[i])
    ensures n < |s| ==> !IndentChar(s[n])
  {
    if s == [] || !IndentChar(s[0]) then 0 else 1 + LeadingRun(s[1..])
  }

  /** The indent level of a line: four counted characters per level. */
  function IndentLevel(line: string): nat {
    LeadingRun(line) / 4
  }

  /** `calculate_indent`: counts leading indentation characters, stopping at the first
      other one, and divides by four. */
  method CalculateIndent(line: string) returns (level: int)
    ensures level == IndentLevel(line)
  {
    var indent := 0;
    var i := 0;
    while i < |line|
      invariant 0 <= i <= |line| && indent == i
      invariant forall j | 0 <= j < i :: IndentChar(line[j])
    {
      if IndentChar(line[i]) {
        indent := indent + 1;
      } else {
        break;
      }
      i := i + 1;
    }
    assert indent == LeadingRun(line);
    level := indent / 4;
  }

  /** Four spaces are one level; a box-drawing prefix counts for nothing, since the run
      stops at its first glyph. */
  lemma IndentExamples()
    ensures IndentLevel("    main.cpp") == 1
    ensures IndentLevel("        x") == 2
    ensures IndentLevel([Vertical] + "   " + [Corner] + [Horizontal, Horizontal] + " main.cpp") == 0
  {
    LeadingRunIs("    main.cpp", 4);
    LeadingRunIs("        x", 8);
    LeadingRunIs([Vertical] + "   " + [Corner] + [Horizontal, Horizontal] + " main.cpp", 0);
  }

  /** The run of indentation characters is exactly `n` long when the first `n` characters
      count and the next one, if any, does not. */
  lemma LeadingRunIs(s: string, n: nat)
    requires n <= |s| && forall i | 0 <= i < n :: IndentChar(s[i])
    requires n < |s| ==> !IndentChar(s[n])
    ensures LeadingRun(s) == n
  {
    var r := LeadingRun(s);
    assert !(r < n);
    assert !(n < r);
  }

  // ---------------------------------------------------------------------------
  // Name extraction (`extract_name`)

  /** The tokens `extract_name` replaces, in the order it replaces them. */
  const TreeTokens: seq<string> := [
    [Tee, Horizontal, Horizontal], [Corner, Horizontal, Horizontal], [Vertical],
    [Tee, Horizontal], [Corner, Horizontal], [Tee], [Corner], [Horizontal],
    [Vertical, ' ', ' '], "|"]

  function NonSpaceCount(s: string): nat {
    if s == [] then 0 else (if s[0] != ' ' then 1 else 0) + NonSpaceCount(s[1..])
  }

  lemma {:induction false} NonSpaceCountAppend(a: string, b: string)
    ensures NonSpaceCount(a + b) == NonSpaceCount(a) + NonSpaceCount(b)
  {
    if a != [] {
      assert (a + b)[1..] == a[1..] + b;
      NonSpaceCountAppend(a[1..], b);
    } else {
      assert a + b == b;
    }
  }

  lemma TokensHaveNonSpace()
    ensures forall t | t in TreeTokens :: NonSpaceCount(t) > 0
  {
    forall t | t in TreeTokens ensures NonSpaceCount(t) > 0 {
      assert t[0] != ' ';
    }
  }

  /** One replacement: the `n` characters at `i` become a single space. */
  function ReplaceAt(s: string, i: nat, n: nat): string
    requires i + n <= |s|
  {
    s[..i] + " " + s[i + n..]
  }

  lemma ReplaceShrinks(s: string, tc: string, i: nat)
    requires OccursAt(s, tc, i) && NonSpaceCount(tc) > 0
    ensures NonSpaceCount(ReplaceAt(s, i, |tc|)) < NonSpaceCount(s)
  {
    assert s == s[..i] + tc + s[i + |tc|..];
    NonSpaceCountAppend(s[..i], tc);
    NonSpaceCountAppend(s[..i] + tc, s[i + |tc|..]);
    NonSpaceCountAppend(s[..i], " ");
    NonSpaceCountAppend(s[..i] + " ", s[i + |tc|..]);
    assert NonSpaceCount(" ") == 0;
  }

  /** Replaces the first occurrence of `tc` by a space until none is left. */
  function StripToken(s: string, tc: string): string
    requires NonSpaceCount(tc) > 0
    decreases NonSpaceCount(s)
  {
    match Find(s, tc)
    case None => s
    case Some(i) =>
      ReplaceShrinks(s, tc, i);
      StripToken(ReplaceAt(s, i, |tc|), tc)
  }

  /** Strips the tokens in order. */
  function StripTokens(s: string, tokens: seq<string>): string
    requires forall t | t in tokens :: NonSpaceCount(t) > 0
  {
    if tokens == [] then s
    else StripToken(StripTokens(s, tokens[..|tokens| - 1]), tokens[|tokens| - 1])
  }

  function Cleaned(line: string): string {
    TokensHaveNonSpace();
    StripTokens(line, TreeTokens)
  }

  /** `find_first_not_of(cs)`. */
  function FirstNotIn(s: string, cs: set<char>): (r: Option<nat>)
    ensures r.Some? ==> r.value < |s| && s[r.value] !in cs
    ensures r.Some? ==> forall j | 0 <= j < r.value :: s[j] in cs
    ensures r.None? ==> forall j | 0 <= j < |s| :: s[j] in cs
  {
    if s == [] then None
    else if s[0] !in cs then Some(0)
    else match FirstNotIn(s[1..], cs)
      case None => None
      case Some(i) => Some(i + 1)
  }

  /** `find_last_not_of(cs)`. */
  function LastNotIn(s: string, cs: set<char>): (r: Option<nat>)
    ensures r.Some? ==> r.value < |s| && s[r.value] !in cs
    ensures r.Some? ==> forall j | r.value < j < |s| :: s[j] in cs
    ensures r.None? ==> forall j | 0 <= j < |s| :: s[j] in cs
  {
    if s == [] then None
    else if s[|s| - 1] !in cs then Some(|s| - 1)
    else LastNotIn(s[..|s| - 1], cs)
  }

  /** A character outside the larger set `b` is outside `a`, so it cannot come before the
      first character outside `a`. */
  lemma FirstBeforeLast(s: string, a: set<char>, b: set<char>)
    requires a <= b && FirstNotIn(s, a).Some? && LastNotIn(s, b).Some?
    ensures FirstNotIn(s, a).value <= LastNotIn(s, b).value
  {
    var last := LastNotIn(s, b).value;
    assert s[last] !in a;
  }

  /** The characters `extract_name` trims from the start of the entry text. */
  const SpaceTab: set<char> := {' ', '\t'}

  /** The characters it trims from the end, and that make a line blank. */
  const Whitespace: set<char> := {' ', '\t', '\r', '\n'}

  /** Trimming with `find_first_not_of(a)` and `find_last_not_of(b)`: from the first
      character outside `a` to the last outside `b`. When only characters of `b` follow
      the start, `find_last_not_of` gives `npos`, and the count `npos - start + 1` of
      `substr(start, …)` wraps around modulo 2^64 to `2^64 - start`: nothing when the
      start is 0, and otherwise more than is left, so the whole rest of the text. */
  function TrimBy(s: string, a: set<char>, b: set<char>): string
    requires a <= b
  {
    match FirstNotIn(s, a)
    case None => ""
    case Some(start) =>
      match LastNotIn(s, b)
      case Some(end) =>
        FirstBeforeLast(s, a, b);
        s[start..end + 1]
      case None => if start == 0 then "" else s[start..]
  }

  /** The entry text after trimming spaces and tabs from the start, and spaces, tabs, CRs
      and LFs from the end. */
  function Trimmed(cleaned: string): string {
    TrimBy(cleaned, SpaceTab, Whitespace)
  }

  /** Name and kind of an entry text: a trailing '/' marks a directory and is dropped;
      otherwise a name without '.' is a directory. */
  function Classify(name: string): (string, bool) {
    if name != [] && name[|name| - 1] == '/' then (name[..|name| - 1], true)
    else (name, '.' !in name)
  }

  /** What `extract_name` returns: the name and the directory flag (left false, as the
      caller initialised it, when the cleaned entry holds only spaces and tabs; an empty
      trimmed text otherwise is classified, and names a directory). */
  function ExtractNameSpec(line: string): (string, bool) {
    var c := Cleaned(line);
    if FirstNotIn(c, SpaceTab).None? then ("", false) else Classify(Trimmed(c))
  }

  /** `extract_name`: replaces each tree token in turn, then trims and classifies. */
  method ExtractName(line: string) returns (name: string, isDirectory: bool)
    ensures (name, isDirectory) == ExtractNameSpec(line)
  {
    var cleaned := ReplaceTokens(line);
    isDirectory := false;
    var start := FirstNotIn(cleaned, SpaceTab);
    if start.None? {
      return "", isDirectory;
    }
    var end := LastNotIn(cleaned, Whitespace);
    if end.Some? {
      FirstBeforeLast(cleaned, SpaceTab, Whitespace);
      name := cleaned[start.value..end.value + 1];
    } else if start.value == 0 {
      name := "";
    } else {
      name := cleaned[start.value..];
    }
    if name != [] && name[|name| - 1] == '/' {
      isDirectory := true;
      name := name[..|name| - 1];
    } else {
      isDirectory := !Contains(name, ".");
      ContainsChar(name, '.');
    }
  }

  /** The loop of `extract_name` over the tree tokens. */
  method ReplaceTokens(line: string) returns (cleaned: string)
    ensures cleaned == Cleaned(line)
  {
    TokensHaveNonSpace();
    cleaned := line;
    for t := 0 to |TreeTokens|
      invariant cleaned == StripTokens(line, TreeTokens[..t])
    {
      assert TreeTokens[t] in TreeTokens;
      cleaned := ReplaceAll(cleaned, TreeTokens[t]);
      assert TreeTokens[..t + 1][..t] == TreeTokens[..t];
    }
    assert TreeTokens[..|TreeTokens|] == TreeTokens;
  }

  /** The inner loop: replaces the first occurrence of `tc` by a space while there is one. */
  method ReplaceAll(s: string, tc: string) returns (r: string)
    requires NonSpaceCount(tc) > 0
    ensures r == StripToken(s, tc)
  {
    r := s;
    var pos := Find(r, tc);
    while pos.Some?
      invariant pos == Find(r, tc)
      invariant StripToken(r, tc) == StripToken(s, tc)
      decreases NonSpaceCount(r)
    {
      ReplaceShrinks(r, tc, pos.value);
      r := ReplaceAt(r, pos.value, |tc|);
      pos := Find(r, tc);
    }
  }

  /** Removing a single-character token leaves no occurrence of that character. */
  lemma StripTokenRemoves(s: string, c: char)
    requires c != ' '
    ensures c !in StripToken(s, [c])
    decreases NonSpaceCount(s)
  {
    match Find(s, [c])
    case None => ContainsChar(s, c);
    case Some(i) =>
      ReplaceShrinks(s, [c], i);
      StripTokenRemoves(ReplaceAt(s, i, 1), c);
  }

  /** Stripping never introduces a character other than a space. */
  lemma StripTokenKeepsAbsent(s: string, tc: string, c: char)
    requires NonSpaceCount(tc) > 0 && c != ' ' && c !in s
    ensures c !in StripToken(s, tc)
    decreases NonSpaceCount(s)
  {
    match Find(s, tc)
    case None =>
    case Some(i) =>
      ReplaceShrinks(s, tc, i);
      assert forall j | 0 <= j < |ReplaceAt(s, i, |tc|)| :: ReplaceAt(s, i, |tc|)[j] != c;
      StripTokenKeepsAbsent(ReplaceAt(s, i, |tc|), tc, c);
  }

  lemma {:induction false} StripTokensRemoves(s: string, tokens: seq<string>, k: nat, c: char)
    requires forall t | t in tokens :: NonSpaceCount(t) > 0
    requires k < |tokens| && tokens[k] == [c] && c != ' '
    ensures c !in StripTokens(s, tokens)
  {
    var n := |tokens| - 1;
    var prefix := tokens[..n];
    assert forall t | t in prefix :: t in tokens;
    if k == n {
      StripTokenRemoves(StripTokens(s, prefix), c);
    } else {
      assert tokens[n] in tokens;
      StripTokensRemoves(s, prefix, k, c);
      StripTokenKeepsAbsent(StripTokens(s, prefix), tokens[n], c);
    }
  }

  /** No branch glyph and no '|' survives the replacements. */
  lemma CleanedHasNoGlyph(line: string)
    ensures var c := Cleaned(line);
      Tee !in c && Corner !in c && Vertical !in c && Horizontal !in c && '|' !in c
  {
    TokensHaveNonSpace();
    StripTokensRemoves(line, TreeTokens, 2, Vertical);
    StripTokensRemoves(line, TreeTokens, 5, Tee);
    StripTokensRemoves(line, TreeTokens, 6, Corner);
    StripTokensRemoves(line, TreeTokens, 7, Horizontal);
    StripTokensRemoves(line, TreeTokens, 9, '|');
  }

  /** The trimmed text is a piece of its input that starts with neither space nor tab and,
      when it holds anything but spaces, tabs, CRs and LFs, ends with none of them. */
  lemma TrimmedShape(cleaned: string)
    ensures forall j | 0 <= j < |Trimmed(cleaned)| :: Trimmed(cleaned)[j] in cleaned
    ensures Trimmed(cleaned) != [] ==> Trimmed(cleaned)[0] !in SpaceTab
    ensures (exists j | 0 <= j < |Trimmed(cleaned)| :: Trimmed(cleaned)[j] !in Whitespace) ==>
      Trimmed(cleaned)[|Trimmed(cleaned)| - 1] !in Whitespace
    ensures Trimmed(cleaned) == [] <==>
      (forall j | 0 <= j < |cleaned| :: cleaned[j] in SpaceTab) ||
      (cleaned != [] && cleaned[0] !in SpaceTab && forall j | 0 <= j < |cleaned| :: cleaned[j] in Whitespace)
  {
    TrimByPiece(cleaned, SpaceTab, Whitespace);
    TrimByEnd(cleaned, SpaceTab, Whitespace);
  }

  /** The trimmed text is the slice of the input from the first character outside `a`;
      it is empty exactly when there is none, or when it is the first character and
      everything lies in `b`. */
  lemma TrimByPiece(s: string, a: set<char>, b: set<char>)
    requires a <= b
    ensures FirstNotIn(s, a).None? ==> TrimBy(s, a, b) == []
    ensures FirstNotIn(s, a).Some? ==>
      var start := FirstNotIn(s, a).value;
      start + |TrimBy(s, a, b)| <= |s| &&
      (TrimBy(s, a, b) == [] <==> start == 0 && LastNotIn(s, b).None?) &&
      TrimBy(s, a, b) == s[start..start + |TrimBy(s, a, b)|]
  {
    match FirstNotIn(s, a)
    case None =>
    case Some(start) =>
      match LastNotIn(s, b)
      case Some(end) =>
        FirstBeforeLast(s, a, b);
        assert TrimBy(s, a, b) == s[start..end + 1];
      case None =>
        if start > 0 {
          assert TrimBy(s, a, b) == s[start..];
        }
  }

  /** Unless the text after the start lies entirely in `b`, the trimmed text ends outside `b`. */
  lemma TrimByEnd(s: string, a: set<char>, b: set<char>)
    requires a <= b
    ensures (exists j | 0 <= j < |TrimBy(s, a, b)| :: TrimBy(s, a, b)[j] !in b) ==>
      TrimBy(s, a, b)[|TrimBy(s, a, b)| - 1] !in b
  {
    var t := TrimBy(s, a, b);
    match FirstNotIn(s, a)
    case None =>
    case Some(start) =>
      match LastNotIn(s, b)
      case Some(end) =>
        FirstBeforeLast(s, a, b);
        assert t[|t| - 1] == s[end];
      case None =>
        if start > 0 {
          assert forall j | 0 <= j < |t| :: t[j] == s[start + j];
        }
  }

  /** What `extract_name` promises: the name holds no branch glyph and no '|', does not
      start with a space or tab, and is a directory exactly when the trimmed entry ended
      in '/' or the name has no '.'. */
  lemma ExtractNameProperties(line: string)
    ensures var (name, isDir) := ExtractNameSpec(line);
      var t := Trimmed(Cleaned(line));
      Tee !in name && Corner !in name && Vertical !in name && Horizontal !in name &&
      '|' !in name &&
      (name != [] ==> name[0] != ' ' && name[0] != '\t') &&
      (name != [] ==> (isDir <==> (t[|t| - 1] == '/' || '.' !in name))) &&
      (name == [] <==> (t == [] || t == "/"))
  {
    var c := Cleaned(line);
    CleanedHasNoGlyph(line);
    TrimmedShape(c);
    var t := Trimmed(c);
    assert forall x | x in t :: x in c;
  }

  /** Stripping leaves a line without any token unchanged. */
  lemma {:induction false} StripTokensNoToken(s: string, tokens: seq<string>)
    requires forall t | t in tokens :: NonSpaceCount(t) > 0 && !Contains(s, t)
    ensures StripTokens(s, tokens) == s
  {
    if tokens != [] {
      var n := |tokens| - 1;
      assert forall t | t in tokens[..n] :: t in tokens;
      StripTokensNoToken(s, tokens[..n]);
      assert tokens[n] in tokens;
      assert Find(s, tokens[n]).None?;
    }
  }

  /** A text without branch glyphs and '|' is left as it is by the replacements. */
  lemma CleanedIdentity(s: string)
    requires '|' !in s && Tee !in s && Corner !in s && Vertical !in s && Horizontal !in s
    ensures Cleaned(s) == s
  {
    TokensHaveNonSpace();
    forall t | t in TreeTokens ensures !Contains(s, t) {
      ContainsFirst(s, t);
    }
    StripTokensNoToken(s, TreeTokens);
  }

  /** A trailing '/' makes a directory and is dropped. */
  lemma ExtractNameSlashExample()
    ensures ExtractNameSpec("src/") == ("src", true)
  {
    var s := "src/";
    CleanedIdentity(s);
    assert FirstNotIn(s, SpaceTab) == Some(0);
    assert s[3] !in Whitespace;
    assert LastNotIn(s, Whitespace) == Some(3);
    assert s[0..4] == s;
    assert s[..3] == "src";
  }

  /** After an otherwise blank start, a CR and what follows it are kept as the name, which
      has no '.' and so names a directory. */
  lemma ExtractNameCarriageReturnExample()
    ensures ExtractNameSpec(" \r ") == ("\r ", true)
  {
    var s := " \r ";
    CleanedIdentity(s);
    assert FirstNotIn(s[1..], SpaceTab) == Some(0);
    assert FirstNotIn(s, SpaceTab) == Some(1);
    assert LastNotIn(s, Whitespace).None?;
    assert s[1..] == "\r ";
  }

  /** A CR followed by a vertical bar: the bar becomes a space, the CR is the first
      character kept, and since nothing after it lies outside the trimmed-from-the-end
      set, the wrapped-around count leaves an empty name. */
  lemma CarriageReturnGlyphName()
    ensures Cleaned("\r" + [Vertical]) == "\r "
    ensures ExtractNameSpec("\r" + [Vertical]) == ("", true)
  {
    var s, c := "\r" + [Vertical], "\r ";
    TokensHaveNonSpace();
    CarriageReturnGlyphStrip();
    StripTokensSplit(s, TreeTokens, 3);
    assert FirstNotIn(c, SpaceTab) == Some(0);
    assert LastNotIn(c[..1], Whitespace).None?;
    assert LastNotIn(c, Whitespace).None?;
  }

  /** The three stages of cleaning "\r│": the first two tokens are absent, the bar is
      replaced, and the remaining tokens are absent. */
  lemma CarriageReturnGlyphStrip()
    ensures forall t | t in TreeTokens :: NonSpaceCount(t) > 0
    ensures StripTokens("\r" + [Vertical], TreeTokens[..3]) == "\r "
    ensures StripTokens("\r ", TreeTokens[3..]) == "\r "
  {
    TokensHaveNonSpace();
    var s := "\r" + [Vertical];
    var first := TreeTokens[..3];
    assert forall t | t in first :: t in TreeTokens;
    assert first[..2] == TreeTokens[..2];
    LeadingTokensAbsent();
    assert first[2] == [Vertical];
    BarReplaced();
    TrailingTokensAbsent();
  }

  lemma LeadingTokensAbsent()
    ensures forall t | t in TreeTokens[..2] :: NonSpaceCount(t) > 0
    ensures StripTokens("\r" + [Vertical], TreeTokens[..2]) == "\r" + [Vertical]
  {
    TokensHaveNonSpace();
    var s, first := "\r" + [Vertical], TreeTokens[..2];
    assert first == [[Tee, Horizontal, Horizontal], [Corner, Horizontal, Horizontal]];
    TokensAbsent(s, first);
    StripTokensNoToken(s, first);
  }

  lemma TrailingTokensAbsent()
    ensures forall t | t in TreeTokens[3..] :: NonSpaceCount(t) > 0
    ensures StripTokens("\r ", TreeTokens[3..]) == "\r "
  {
    TokensHaveNonSpace();
    var c, rest := "\r ", TreeTokens[3..];
    assert rest == [[Tee, Horizontal], [Corner, Horizontal], [Tee], [Corner], [Horizontal],
      [Vertical, ' ', ' '], "|"];
    TokensAbsent(c, rest);
    StripTokensNoToken(c, rest);
  }

  /** A token whose first character does not occur in the text is absent from it. */
  lemma TokensAbsent(s: string, tokens: seq<string>)
    requires forall t | t in tokens :: NonSpaceCount(t) > 0 && t != [] && t[0] !in s
    ensures forall t | t in tokens :: NonSpaceCount(t) > 0 && !Contains(s, t)
  {
    forall t | t in tokens ensures !Contains(s, t) {
      ContainsFirst(s, t);
    }
  }

  /** The bar of "\r│" is replaced by a space, and then none is left. */
  lemma BarReplaced()
    ensures StripToken("\r" + [Vertical], [Vertical]) == "\r "
  {
    var s, c := "\r" + [Vertical], "\r ";
    assert NonSpaceCount([Vertical]) > 0 by {
      assert NonSpaceCount([Vertical]) == 1 + NonSpaceCount([]);
    }
    assert OccursAt(s, [Vertical], 1) && !OccursAt(s, [Vertical], 0);
    assert Find(s, [Vertical]) == Some(1);
    assert ReplaceAt(s, 1, 1) == c;
    ContainsFirst(c, [Vertical]);
  }

  /** Stripping a sequence of tokens is stripping its first `k` and then the rest. */
  lemma {:induction false} StripTokensSplit(s: string, tokens: seq<string>, k: nat)
    requires k <= |tokens| && forall t | t in tokens :: NonSpaceCount(t) > 0
    ensures StripTokens(s, tokens) == StripTokens(StripTokens(s, tokens[..k]), tokens[k..])
    decreases |tokens|
  {
    if k < |tokens| {
      var n := |tokens| - 1;
      var init := tokens[..n];
      assert forall t | t in init :: t in tokens;
      assert init[..k] == tokens[..k];
      StripTokensSplit(s, init, k);
      StripTokensLast(StripTokens(s, tokens[..k]), tokens, k);
      StripTokensLast(s, tokens, 0);
    } else {
      assert tokens[..k] == tokens;
    }
  }

  /** Stripping `tokens[k..]` is stripping all but its last token and then the last. */
  lemma StripTokensLast(x: string, tokens: seq<string>, k: nat)
    requires k < |tokens| && forall t | t in tokens :: NonSpaceCount(t) > 0
    ensures forall t | t in tokens[k..] :: t in tokens
    ensures forall t | t in tokens[k..|tokens| - 1] :: t in tokens
    ensures StripTokens(x, tokens[k..]) ==
      StripToken(StripTokens(x, tokens[k..|tokens| - 1]), tokens[|tokens| - 1])
  {
    assert forall t | t in tokens[k..] :: t in tokens;
    assert forall t | t in tokens[k..|tokens| - 1] :: t in tokens;
    var tail := tokens[k..];
    assert tail[..|tail| - 1] == tokens[k..|tokens| - 1];
  }

  // ---------------------------------------------------------------------------
  // One line (`parse_line`)

  datatype LineInfo = LineInfo(indent: nat, name: string, isDirectory: bool)

  function LineInfoOf(line: string): Option<LineInfo> {
    var (name, isDir) := ExtractNameSpec(line);
    if name == [] then None else Some(LineInfo(IndentLevel(line), name, isDir))
  }

  /** `parse_line`: the indent level and the extracted name; nothing when the name is empty. */
  method ParseLine(line: string) returns (info: Option<LineInfo>)
    ensures info == LineInfoOf(line)
    ensures info.Some? ==> info.value.name != [] && info.value.indent == LeadingRun(line) / 4
  {
    var indent := CalculateIndent(line);
    var name, isDirectory := ExtractName(line);
    if name == [] {
      return None;
    }
    info := Some(LineInfo(indent, name, isDirectory));
  }

  // ---------------------------------------------------------------------------
  // Tree assembly (`parse_tree_lines`)

  /** Empty, or made only of spaces, tabs, CRs and LFs. */
  predicate IsBlankLine(line: string) {
    line == [] || FirstNotIn(line, Whitespace).None?
  }

  /** The entry a line contributes: none for a blank line or an empty name. */
  function EntryOf(line: string): seq<LineInfo> {
    if IsBlankLine(line) then []
    else match LineInfoOf(line)
      case None => []
      case Some(e) => [e]
  }

  /** The line "\r│" is not blank, yet its name comes out empty, so it contributes no
      entry. */
  lemma CarriageReturnGlyphLineSkipped()
    ensures !IsBlankLine("\r" + [Vertical])
    ensures LineInfoOf("\r" + [Vertical]) == None
    ensures EntryOf("\r" + [Vertical]) == []
  {
    var s := "\r" + [Vertical];
    assert s[1] !in Whitespace;
    CarriageReturnGlyphName();
  }

  /** The entries of the selected lines, in order. */
  function Entries(lines: seq<string>): seq<LineInfo> {
    if lines == [] then []
    else Entries(lines[..|lines| - 1]) + EntryOf(lines[|lines| - 1])
  }

  lemma {:induction false} EntriesPrefix(lines: seq<string>, i: nat)
    requires i <= |lines|
    ensures |Entries(lines[..i])| <= |Entries(lines)|
    ensures Entries(lines)[..|Entries(lines[..i])|] == Entries(lines[..i])
    decreases |lines|
  {
    if i < |lines| {
      var n := |lines| - 1;
      assert lines[..n][..i] == lines[..i];
      EntriesPrefix(lines[..n], i);
      var pre, all := Entries(lines[..n]), Entries(lines);
      assert all == pre + EntryOf(lines[n]);
      assert all[..|pre|] == pre;
    } else {
      assert lines[..i] == lines;
    }
  }

  /** One more line extends the entries by what that line contributes. */
  lemma {:induction false} EntriesStep(lines: seq<string>, i: nat, k: nat)
    requires i < |lines| && k <= |Entries(lines)| && Entries(lines[..i]) == Entries(lines)[..k]
    ensures EntryOf(lines[i]) == [] ==> Entries(lines[..i + 1]) == Entries(lines)[..k]
    ensures EntryOf(lines[i]) != [] ==>
      k < |Entries(lines)| && Entries(lines[..i + 1]) == Entries(lines)[..k + 1] &&
      Entries(lines)[k] == EntryOf(lines[i])[0]
  {
    EntriesPrefix(lines, i + 1);
    assert lines[..i + 1][..i] == lines[..i];
    var es := Entries(lines);
    var e := EntryOf(lines[i]);
    var next := Entries(lines[..i + 1]);
    assert next == es[..k] + e;
    assert next == es[..|next|];
    if e != [] {
      assert next[k] == e[0];
      assert es[k] == next[k];
    }
  }

  /** The nearest entry before `j` whose indent is below `level`, or -1 (the root). */
  function NearestBelow(es: seq<LineInfo>, level: int, j: nat): (r: int)
    requires j <= |es|
    ensures -1 <= r < j
    ensures r >= 0 ==> es[r].indent < level
    ensures forall i | r < i < j :: es[i].indent >= level
  {
    if j == 0 then -1
    else if es[j - 1].indent < level then j - 1
    else NearestBelow(es, level, j - 1)
  }

  /** The parent of entry `k`: the nearest earlier entry with a smaller indent. */
  function ParentOf(es: seq<LineInfo>, k: nat): int
    requires k < |es|
  {
    NearestBelow(es, es[k].indent, k)
  }

  /** Depth below the root: one more than the parent's, the root being at depth 0. */
  function Depth(es: seq<LineInfo>, k: nat): (d: nat)
    requires k < |es|
    ensures d >= 1
    decreases k
  {
    var p := ParentOf(es, k);
    if p < 0 then 1 else Depth(es, p) + 1
  }

  function KindOf(isDirectory: bool): Kind {
    if isDirectory then Directory else File
  }

  function ItemOf(es: seq<LineInfo>, k: nat): Item
    requires k < |es|
  {
    Item(Depth(es, k), KindOf(es[k].isDirectory), es[k].name)
  }

  /** The enumeration expected for the first `k` entries. */
  function Items(es: seq<LineInfo>, k: nat): (r: seq<Item>)
    requires k <= |es|
    ensures |r| == k && forall j | 0 <= j < k :: r[j] == ItemOf(es, j)
  {
    if k == 0 then [] else Items(es, k - 1) + [ItemOf(es, k - 1)]
  }

  const RootItem: Item := Item(0, Directory, "root")

  /** An open node of the stack with the indent level it was pushed with. */
  datatype Frame = Frame(level: int, node: Node)

  /** Closes the top frame: its node becomes the last child of the frame below. */
  function Pop(s: seq<Frame>): (r: seq<Frame>)
    requires |s| >= 2
    ensures |r| == |s| - 1 && r[..|s| - 2] == s[..|s| - 2]
    ensures r[|s| - 2].level == s[|s| - 2].level
  {
    var n := |s| - 2;
    s[..n] + [Frame(s[n].level, AddChild(s[n].node, s[n + 1].node))]
  }

  /** Closes every frame; the bottom node is the result. */
  function Close(s: seq<Frame>): Node
    requires |s| >= 1
    decreases |s|
  {
    if |s| == 1 then s[0].node else Close(Pop(s))
  }

  /** The enumeration of the open nodes, each at its stack position as depth. */
  function Flat(s: seq<Frame>): seq<Item> {
    if s == [] then [] else Flat(s[..|s| - 1]) + Preorder(s[|s| - 1].node, |s| - 1)
  }

  predicate FramesNoContent(s: seq<Frame>) {
    forall t | 0 <= t < |s| :: NoContent(s[t].node)
  }

  lemma NoContentAddChild(n: Node, c: Node)
    requires NoContent(n) && NoContent(c)
    ensures NoContent(AddChild(n, c))
  {
    var r := AddChild(n, c);
    assert forall i | 0 <= i < |r.children| :: NoContent(r.children[i]) by {
      forall i | 0 <= i < |r.children| ensures NoContent(r.children[i]) {
        if i < |n.children| {
          assert r.children[i] == n.children[..|n.children|][i];
        }
      }
    }
  }

  /** Closing the top frame changes neither the enumeration nor the absence of content. */
  lemma {:induction false} FlatPop(s: seq<Frame>)
    requires |s| >= 2
    ensures Flat(Pop(s)) == Flat(s)
  {
    var m := |s|;
    var r := Pop(s);
    var below := s[..m - 2];
    var parent := s[m - 2].node;
    var child := s[m - 1].node;
    assert r == below + [Frame(s[m - 2].level, AddChild(parent, child))];
    assert r[..m - 2] == below;
    assert s[..m - 1] == below + [s[m - 2]];
    assert s[..m - 1][..m - 2] == below;
    calc {
      Flat(r);
      Flat(below) + Preorder(AddChild(parent, child), m - 2);
      { PreorderAddChild(parent, child, m - 2); }
      Flat(below) + Preorder(parent, m - 2) + Preorder(child, m - 1);
      Flat(s[..m - 1]) + Preorder(child, m - 1);
      Flat(s);
    }
  }

  lemma {:induction false} PopNoContent(s: seq<Frame>)
    requires |s| >= 2 && FramesNoContent(s)
    ensures FramesNoContent(Pop(s))
  {
    NoContentAddChild(s[|s| - 2].node, s[|s| - 1].node);
    assert forall t | 0 <= t < |s| - 2 :: Pop(s)[t] == s[t];
  }

  lemma {:induction false} FlatPush(s: seq<Frame>, f: Frame)
    ensures Flat(s + [f]) == Flat(s) + Preorder(f.node, |s|)
  {
    assert (s + [f])[..|s|] == s;
  }

  lemma {:induction false} CloseFlat(s: seq<Frame>)
    requires |s| >= 1
    ensures Preorder(Close(s), 0) == Flat(s)
    ensures FramesNoContent(s) ==> NoContent(Close(s))
    decreases |s|
  {
    if |s| == 1 {
      assert s[..0] == [];
    } else {
      FlatPop(s);
      if FramesNoContent(s) {
        PopNoContent(s);
      }
      CloseFlat(Pop(s));
    }
  }

  /** Every entry strictly between `lo` and `hi` is indented at least `level`. */
  ghost predicate AllAtLeast(es: seq<LineInfo>, lo: int, hi: int, level: int)
    requires hi <= |es|
  {
    forall j | lo < j < hi && 0 <= j :: es[j].indent >= level
  }

  /** The indent levels of the frames, bottom first. */
  function Levels(s: seq<Frame>): (lv: seq<int>)
    ensures |lv| == |s| && forall t | 0 <= t < |s| :: lv[t] == s[t].level
  {
    seq(|s|, t requires 0 <= t < |s| => s[t].level)
  }

  lemma {:induction false} LevelsPop(s: seq<Frame>)
    requires |s| >= 2
    ensures Levels(Pop(s)) == Levels(s)[..|s| - 1]
  {
  }

  lemma {:induction false} LevelsPush(s: seq<Frame>, f: Frame)
    ensures Levels(s + [f]) == Levels(s) + [f.level]
  {
  }

  /** Strictly increasing from the bottom up. */
  ghost predicate Increasing(xs: seq<int>) {
    forall t | 0 <= t < |xs| - 1 :: xs[t] < xs[t + 1]
  }

  /** Every frame above the bottom holds an entry before `k`, at that entry's indent and
      at its depth. */
  ghost predicate FramesHold(es: seq<LineInfo>, lv: seq<int>, idx: seq<int>, k: nat)
    requires k <= |es| && |idx| == |lv|
  {
    forall t | 1 <= t < |lv| :: 0 <= idx[t] < k && lv[t] == es[idx[t]].indent && Depth(es, idx[t]) == t
  }

  /** Every entry skipped between two frames is at least as deep as the upper one. */
  ghost predicate GapsDeep(es: seq<LineInfo>, lv: seq<int>, idx: seq<int>)
    requires |idx| == |lv|
  {
    forall t | 1 <= t < |lv| :: idx[t] <= |es| && AllAtLeast(es, idx[t - 1], idx[t], lv[t])
  }

  /** The stack of `parse_tree_lines` after `k` entries, as its levels `lv` and with
      `idx[t]` the entry whose node frame `t` holds (-1 for the root): levels and entries
      strictly increase upwards, each frame holds its entry's indent at its own depth,
      and every entry skipped between two frames is at least as deep as the upper one. */
  ghost predicate Stacked(es: seq<LineInfo>, lv: seq<int>, idx: seq<int>, k: nat) {
    k <= |es| && |lv| >= 1 && |idx| == |lv| && lv[0] == -1 && idx[0] == -1 &&
    Increasing(lv) && Increasing(idx) && FramesHold(es, lv, idx, k) && GapsDeep(es, lv, idx)
  }

  lemma IncreasingPop(xs: seq<int>)
    requires Increasing(xs) && xs != []
    ensures Increasing(xs[..|xs| - 1])
  {
  }

  lemma IncreasingPush(xs: seq<int>, x: int)
    requires Increasing(xs) && xs != [] && xs[|xs| - 1] < x
    ensures Increasing(xs + [x])
  {
    var ys := xs + [x];
    forall t | 0 <= t < |ys| - 1 ensures ys[t] < ys[t + 1] {
      if t < |xs| - 1 {
        assert ys[t] == xs[t] && ys[t + 1] == xs[t + 1];
      }
    }
  }

  /** Popping a frame at least as deep as the new entry keeps the stack shape, and every
      entry above the new top is still at least as deep as the new entry. */
  lemma {:induction false} StackedPop(es: seq<LineInfo>, lv: seq<int>, idx: seq<int>, k: nat, level: int)
    requires Stacked(es, lv, idx, k) && level >= 0
    requires lv[|lv| - 1] >= level
    requires AllAtLeast(es, idx[|idx| - 1], k, level)
    ensures |lv| >= 2
    ensures Stacked(es, lv[..|lv| - 1], idx[..|idx| - 1], k)
    ensures AllAtLeast(es, idx[|idx| - 2], k, level)
  {
    IncreasingPop(lv);
    IncreasingPop(idx);
    FramesPop(es, lv, idx, k);
    GapsPop(es, lv, idx, k, level);
  }

  lemma FramesPop(es: seq<LineInfo>, lv: seq<int>, idx: seq<int>, k: nat)
    requires k <= |es| && |idx| == |lv| && |lv| >= 1 && FramesHold(es, lv, idx, k)
    ensures FramesHold(es, lv[..|lv| - 1], idx[..|idx| - 1], k)
  {
  }

  /** Below the top frame the skipped entries reach down to `k`, all at least `level` deep. */
  lemma GapsPop(es: seq<LineInfo>, lv: seq<int>, idx: seq<int>, k: nat, level: int)
    requires k <= |es| && |idx| == |lv| && |lv| >= 1 && lv[0] == -1 && level >= 0
    requires GapsDeep(es, lv, idx) && Increasing(lv)
    requires forall t | 1 <= t < |lv| :: 0 <= idx[t] < k
    requires lv[|lv| - 1] >= level
    requires |lv| >= 2 ==> lv[|lv| - 1] == es[idx[|idx| - 1]].indent
    requires AllAtLeast(es, idx[|idx| - 1], k, level)
    ensures |lv| >= 2
    ensures GapsDeep(es, lv[..|lv| - 1], idx[..|idx| - 1])
    ensures AllAtLeast(es, idx[|idx| - 2], k, level)
  {
    var n := |lv|;
    assert n >= 2 by {
      assert !(n == 1);
    }
    assert AllAtLeast(es, idx[n - 2], idx[n - 1], lv[n - 1]);
    forall j | idx[n - 2] < j < k && 0 <= j ensures es[j].indent >= level {
      if j > idx[n - 1] {
        assert AllAtLeast(es, idx[n - 1], k, level);
      }
    }
  }

  /** With the stack popped down to the new entry's parent, the top frame holds the
      nearest shallower entry, and pushing the new entry keeps the stack shape. */
  lemma {:induction false} StackedPush(es: seq<LineInfo>, lv: seq<int>, idx: seq<int>, k: nat)
    requires Stacked(es, lv, idx, k) && k < |es|
    requires lv[|lv| - 1] < es[k].indent
    requires AllAtLeast(es, idx[|idx| - 1], k, es[k].indent)
    ensures ParentOf(es, k) == idx[|idx| - 1]
    ensures Depth(es, k) == |lv|
    ensures Stacked(es, lv + [es[k].indent], idx + [k], k + 1)
  {
    var top := |lv| - 1;
    var q := idx[top];
    assert -1 <= q < k && (q >= 0 <==> top >= 1);
    assert q >= 0 ==> es[q].indent < es[k].indent && Depth(es, q) == top;
    NearestBelowUnique(es, es[k].indent, k, q);
    IncreasingPush(lv, es[k].indent);
    IncreasingPush(idx, k);
    FramesPush(es, lv, idx, k);
    GapsPush(es, lv, idx, k);
  }

  /** An entry before `j` that is shallower than `level`, with every entry after it at
      least that deep, is the nearest shallower one. */
  lemma NearestBelowUnique(es: seq<LineInfo>, level: int, j: nat, q: int)
    requires j <= |es| && -1 <= q < j
    requires q >= 0 ==> es[q].indent < level
    requires AllAtLeast(es, q, j, level)
    ensures NearestBelow(es, level, j) == q
  {
    var r := NearestBelow(es, level, j);
    assert !(r < q);
    assert !(q < r);
  }

  lemma FramesPush(es: seq<LineInfo>, lv: seq<int>, idx: seq<int>, k: nat)
    requires k < |es| && |idx| == |lv| && FramesHold(es, lv, idx, k)
    requires Depth(es, k) == |lv|
    ensures FramesHold(es, lv + [es[k].indent], idx + [k], k + 1)
  {
    var lv', idx' := lv + [es[k].indent], idx + [k];
    forall t | 1 <= t < |lv'|
      ensures 0 <= idx'[t] < k + 1 && lv'[t] == es[idx'[t]].indent && Depth(es, idx'[t]) == t
    {
      if t < |lv| {
        assert lv'[t] == lv[t] && idx'[t] == idx[t];
      }
    }
  }

  lemma GapsPush(es: seq<LineInfo>, lv: seq<int>, idx: seq<int>, k: nat)
    requires k < |es| && |idx| == |lv| && |lv| >= 1 && GapsDeep(es, lv, idx)
    requires AllAtLeast(es, idx[|idx| - 1], k, es[k].indent)
    ensures GapsDeep(es, lv + [es[k].indent], idx + [k])
  {
    var lv', idx' := lv + [es[k].indent], idx + [k];
    forall t | 1 <= t < |lv'|
      ensures idx'[t] <= |es| && AllAtLeast(es, idx'[t - 1], idx'[t], lv'[t])
    {
      if t < |lv| {
        assert lv'[t] == lv[t] && idx'[t - 1] == idx[t - 1] && idx'[t] == idx[t];
      }
    }
  }

  /** Opening the node of entry `k` on top of its parent's frame. */
  lemma PushStep(es: seq<LineInfo>, stack: seq<Frame>, idx: seq<int>, k: nat, node: Node)
    requires Stacked(es, Levels(stack), idx, k) && k < |es|
    requires stack[|stack| - 1].level < es[k].indent
    requires AllAtLeast(es, idx[|idx| - 1], k, es[k].indent)
    requires Flat(stack) == [RootItem] + Items(es, k) && FramesNoContent(stack)
    requires node == MakeNode(KindOf(es[k].isDirectory), es[k].name)
    ensures var s := stack + [Frame(es[k].indent, node)];
      Stacked(es, Levels(s), idx + [k], k + 1) &&
      Flat(s) == [RootItem] + Items(es, k + 1) && FramesNoContent(s)
  {
    var f := Frame(es[k].indent, node);
    StackedPush(es, Levels(stack), idx, k);
    LevelsPush(stack, f);
    FlatPush(stack, f);
    assert Preorder(node, |stack|) == [ItemOf(es, k)];
  }

  /** The state of `parse_tree_lines` after the first `k` entries: the stack has the
      stacked shape, its top holds entry `k - 1`, and its open nodes enumerate the root
      and those entries, all without content. */
  ghost predicate Assembled(es: seq<LineInfo>, stack: seq<Frame>, idx: seq<int>, k: nat) {
    Stacked(es, Levels(stack), idx, k) && idx[|idx| - 1] == k - 1 &&
    Flat(stack) == [RootItem] + Items(es, k) && FramesNoContent(stack)
  }

  /** The body of the `parse_tree_lines` loop for one entry: pops every open node at least
      as deep as the entry, then opens the entry's node under the new top. The stack holds
      the bottom frame at level -1, so it never empties and the source's "no parent found"
      warning is unreachable. */
  method AddEntry(ghost es: seq<LineInfo>, stack: seq<Frame>, ghost idx: seq<int>, ghost k: nat,
                  info: LineInfo)
    returns (stack': seq<Frame>, ghost idx': seq<int>)
    requires Assembled(es, stack, idx, k) && k < |es| && es[k] == info
    ensures Assembled(es, stack', idx', k + 1)
  {
    var level := info.indent;
    stack', idx' := stack, idx;
    while stack'[|stack'| - 1].level >= level
      invariant Stacked(es, Levels(stack'), idx', k)
      invariant AllAtLeast(es, idx'[|idx'| - 1], k, level)
      invariant Flat(stack') == [RootItem] + Items(es, k)
      invariant FramesNoContent(stack')
      decreases |stack'|
    {
      StackedPop(es, Levels(stack'), idx', k, level);
      LevelsPop(stack');
      FlatPop(stack');
      PopNoContent(stack');
      stack' := Pop(stack');
      idx' := idx'[..|idx'| - 1];
    }
    var node := MakeNode(KindOf(info.isDirectory), info.name);
    PushStep(es, stack', idx', k, node);
    stack' := stack' + [Frame(level, node)];
    idx' := idx' + [k];
  }

  /** `parse_tree_lines`: every non-blank line with a non-empty name adds one node, as the
      last child of the nearest earlier entry with a smaller indent (the root when there
      is none). The result is stated through its enumeration, which determines a tree
      without content (`PreorderInjective`). */
  method ParseTreeLines(lines: seq<string>) returns (root: Node)
    ensures Preorder(root, 0) == [RootItem] + Items(Entries(lines), |Entries(lines)|)
    ensures root.kind == Directory && root.name == "root" && NoContent(root)
    ensures Size(root) == |Entries(lines)| + 1
  {
    ghost var es := Entries(lines);
    var stack: seq<Frame> := [Frame(-1, MakeNode(Directory, "root"))];
    ghost var idx: seq<int> := [-1];
    ghost var k: nat := 0;
    assert lines[..0] == [];
    AssembledStart(es);
    for i := 0 to |lines|
      invariant k <= |es| && Assembled(es, stack, idx, k)
      invariant Entries(lines[..i]) == es[..k]
    {
      stack, idx, k := TakeLine(lines, i, stack, idx, k);
    }
    assert lines[..|lines|] == lines;
    root := Close(stack);
    ClosedTree(es, stack, idx);
  }

  /** One iteration of the `parse_tree_lines` loop: a blank line, or one whose name is
      empty, is skipped; any other adds its entry. */
  method TakeLine(lines: seq<string>, i: nat, stack: seq<Frame>, ghost idx: seq<int>, ghost k: nat)
    returns (stack': seq<Frame>, ghost idx': seq<int>, ghost k': nat)
    requires i < |lines| && k <= |Entries(lines)|
    requires Assembled(Entries(lines), stack, idx, k) && Entries(lines[..i]) == Entries(lines)[..k]
    ensures k' <= |Entries(lines)| && Assembled(Entries(lines), stack', idx', k')
    ensures Entries(lines[..i + 1]) == Entries(lines)[..k']
  {
    var line := lines[i];
    var info: Option<LineInfo> := None;
    if line != [] && FirstNotIn(line, Whitespace).Some? {
      info := ParseLine(line);
    }
    EntryStep(lines, i, k, info);
    stack', idx', k' := stack, idx, k;
    if info.Some? {
      stack', idx' := AddEntry(Entries(lines), stack, idx, k, info.value);
      k' := k + 1;
    }
  }

  /** The entries after one more line, in terms of what parsing that line gave. */
  lemma EntryStep(lines: seq<string>, i: nat, k: nat, info: Option<LineInfo>)
    requires i < |lines| && k <= |Entries(lines)| && Entries(lines[..i]) == Entries(lines)[..k]
    requires info == if IsBlankLine(lines[i]) then None else LineInfoOf(lines[i])
    ensures info.None? ==> Entries(lines[..i + 1]) == Entries(lines)[..k]
    ensures info.Some? ==>
      k < |Entries(lines)| && Entries(lines[..i + 1]) == Entries(lines)[..k + 1] &&
      Entries(lines)[k] == info.value
  {
    EntriesStep(lines, i, k);
    assert EntryOf(lines[i]) == if info.Some? then [info.value] else [];
  }

  /** Before any entry, the stack holds the root alone. */
  lemma AssembledStart(es: seq<LineInfo>)
    ensures Assembled(es, [Frame(-1, MakeNode(Directory, "root"))], [-1], 0)
  {
    var s := [Frame(-1, MakeNode(Directory, "root"))];
    assert Flat(s) == Preorder(s[0].node, 0) by {
      assert s[..0] == [];
    }
  }

  /** Once every entry is in, closing the stack gives the tree of the entries. */
  lemma ClosedTree(es: seq<LineInfo>, stack: seq<Frame>, idx: seq<int>)
    requires Assembled(es, stack, idx, |es|)
    ensures Preorder(Close(stack), 0) == [RootItem] + Items(es, |es|)
    ensures NoContent(Close(stack))
  {
    CloseFlat(stack);
  }

  // ---------------------------------------------------------------------------
  // The whole document (`parse_tree_structure`)

  /** The tree a document describes, when it has any tree lines. */
  function ParsedItems(content: string): seq<Item> {
    var es := Entries(Selected(SplitLines(content)));
    [RootItem] + Items(es, |es|)
  }

  /** `parse_tree_structure`: collects the tree lines (toggling at each fence line, which
      is itself dropped) and assembles them; fails when nothing was collected. */
  method ParseTreeStructure(content: string) returns (r: Result<Node>)
    ensures r.Err? <==> Selected(SplitLines(content)) == []
    ensures r.Err? ==> r.error == Failure(InvalidMarkdownFormat, "No tree structure found in markdown")
    ensures r.Ok? ==> Preorder(r.value, 0) == ParsedItems(content) && NoContent(r.value)
  {
    var lines := SplitLines(content);
    var inCodeBlock := false;
    var treeLines: seq<string> := [];
    assert lines[..0] == [];
    for i := 0 to |lines|
      invariant treeLines == Selected(lines[..i])
      invariant inCodeBlock == InsideFence(lines, i)
    {
      var line := lines[i];
      SelectStep(lines, i);
      if Find(line, Fence).Some? {
        inCodeBlock := !inCodeBlock;
        continue;
      }
      if inCodeBlock || IsTreeLine(line) {
        treeLines := treeLines + [line];
      }
    }
    assert lines[..|lines|] == lines;
    if treeLines == [] {
      return Err(Failure(InvalidMarkdownFormat, "No tree structure found in markdown"));
    }
    var root := ParseTreeLines(treeLines);
    r := Ok(root);
  }
}
