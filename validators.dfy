/** The input checks of src/utils/validators.cpp: project and template names, names of
    files and directories, file extensions, and the existence checks on paths.

    Text is a sequence of code points standing for its UTF-8 encoding. The source looks
    at bytes (`char`, signed on the platforms it targets); a code point of 128 or more is
    encoded only with bytes of 0x80 or more, which as signed `char`s are negative. */
module Validators {
  import opened Wrappers
  import opened Errors
  import opened FileSystem

  // ---------------------------------------------------------------------------
  // Names

  /** The character class `[a-zA-Z0-9_-]` of `PROJECT_NAME_PATTERN` and
      `TEMPLATE_NAME_PATTERN`. */
  predicate NameChar(c: char) {
    ('a' <= c <= 'z') || ('A' <= c <= 'Z') || ('0' <= c <= '9') || c == '_' || c == '-'
  }

  /** `std::regex_match` against `^[a-zA-Z0-9_-]+$`. */
  predicate MatchesNamePattern(name: string) {
    |name| > 0 && forall i | 0 <= i < |name| :: NameChar(name[i])
  }

  const MaxProjectNameLength: nat := 255

  /** `validate_project_name`: empty, then too long (in bytes), then the pattern. */
  function ValidateProjectName(name: string): (r: Outcome)
    ensures r.Pass? <==> name != [] && Utf8Length(name) <= MaxProjectNameLength && MatchesNamePattern(name)
    ensures r.Fail? ==> r.error.code == InvalidInput && r.error.details == None
    ensures name == [] ==> r.error.message == "Project name cannot be empty"
    ensures name != [] && Utf8Length(name) > MaxProjectNameLength ==>
      r.error.message == "Project name too long (max 255 characters)"
  {
    if name == [] then Fail(Failure(InvalidInput, "Project name cannot be empty"))
    else if Utf8Length(name) > MaxProjectNameLength then Fail(Failure(InvalidInput, "Project name too long (max 255 characters)"))
    else if !MatchesNamePattern(name) then
      Fail(Failure(InvalidInput, "Invalid project name. Use only letters, numbers, hyphens, and underscores"))
    else Pass
  }

  /** `validate_template_name`: empty, then the pattern; no limit on the length. */
  function ValidateTemplateName(name: string): (r: Outcome)
    ensures r.Pass? <==> MatchesNamePattern(name)
    ensures r.Fail? ==> r.error.code == InvalidInput && r.error.details == None
    ensures name == [] ==> r.error.message == "Template name cannot be empty"
  {
    if name == [] then Fail(Failure(InvalidInput, "Template name cannot be empty"))
    else if !MatchesNamePattern(name) then
      Fail(Failure(InvalidInput, "Invalid template name. Use only letters, numbers, hyphens, and underscores"))
    else Pass
  }

  /** The characters `is_valid_directory_name` refuses outright: `<>:"|?*` (the NUL at
      the end of the literal never makes it into the string). */
  const ForbiddenChars: string := "<>:\"|?*"

  /** A character `is_valid_directory_name` lets through: not forbidden, and no byte of
      its encoding below 32 as a signed `char`, which leaves 32..127. */
  predicate AllowedChar(c: char) {
    c !in ForbiddenChars && 32 <= c as int < 128
  }

  /** `is_valid_directory_name`: not empty, not "." or "..", and every character
      allowed; the loop's first refused character ends it. */
  predicate IsValidDirectoryName(name: string) {
    name != [] && name != "." && name != ".." && forall i | 0 <= i < |name| :: AllowedChar(name[i])
  }

  /** `is_valid_filename`. */
  predicate IsValidFilename(name: string) {
    IsValidDirectoryName(name)
  }

  /** A name `is_valid_directory_name` accepts has no control character, no non-ASCII
      character and none of `<>:"|?*`, and is neither "." nor ".."; a name made of one
      character is accepted exactly when that character is allowed and is not '.'. */
  lemma DirectoryNameRules(name: string)
    ensures IsValidDirectoryName(name) ==>
      name !in {"", ".", ".."} && forall c | c in name :: 32 <= c as int < 128 && c !in ForbiddenChars
    ensures |name| == 1 ==> (IsValidDirectoryName(name) <==> AllowedChar(name[0]) && name[0] != '.')
  {
  }

  /** Every project name `validate_project_name` accepts is a valid directory name, and
      a valid template name. */
  lemma ProjectNameIsDirectoryName(name: string)
    requires ValidateProjectName(name).Pass?
    ensures IsValidDirectoryName(name) && IsValidFilename(name)
    ensures ValidateTemplateName(name).Pass?
  {
    assert name[0] != '.';
    forall i | 0 <= i < |name| ensures AllowedChar(name[i]) {
      assert NameChar(name[i]);
    }
  }

  /** The two name checks differ only in the length limit: 256 letters make a valid
      template name but not a valid project name. */
  lemma TemplateNameHasNoLengthLimit()
    ensures var name := seq(256, _ => 'a');
      ValidateTemplateName(name).Pass? && ValidateProjectName(name).Fail? &&
      ValidateProjectName(name).error.message == "Project name too long (max 255 characters)"
  {
    var name := seq(256, _ => 'a');
    AsciiLength(name);
  }

  /** ASCII text takes one byte per character. */
  lemma {:induction false} AsciiLength(s: string)
    requires forall i | 0 <= i < |s| :: s[i] as int < 0x80
    ensures Utf8Length(s) == |s|
  {
    if s != [] {
      AsciiLength(s[..|s| - 1]);
    }
  }

  // ---------------------------------------------------------------------------
  // Extensions (`std::filesystem::path::extension` on a POSIX path)

  /** The position of the last `c` in `s`. */
  function LastIndexOf(s: string, c: char): (r: Option<nat>)
    ensures r.Some? ==> r.value < |s| && s[r.value] == c && forall j | r.value < j < |s| :: s[j] != c
    ensures r.None? ==> c !in s
  {
    if s == [] then None
    else if s[|s| - 1] == c then Some(|s| - 1)
    else LastIndexOf(s[..|s| - 1], c)
  }

  /** `filename()`: what follows the last '/'. */
  function FileName(p: string): (f: string)
    ensures '/' !in f && |f| <= |p| && p[|p| - |f|..] == f
  {
    match LastIndexOf(p, '/')
    case None => p
    case Some(i) => p[i + 1..]
  }

  /** `extension()`: from the last '.' of the file name on, unless that '.' starts the
      file name or the file name is "..". */
  function Extension(p: string): (e: string)
    ensures e != [] ==> e[0] == '.' && '.' !in e[1..] && '/' !in e
    ensures e != [] ==> |e| < |FileName(p)| && FileName(p)[|FileName(p)| - |e|..] == e
  {
    var f := FileName(p);
    if f == ".." then ""
    else
      match LastIndexOf(f, '.')
      case None => ""
      case Some(i) => if i == 0 then "" else f[i..]
  }

  /** `has_markdown_extension`. */
  predicate HasMarkdownExtension(p: string) {
    Extension(p) == ".md" || Extension(p) == ".markdown"
  }

  /** `has_json_extension`. */
  predicate HasJsonExtension(p: string) {
    Extension(p) == ".json"
  }

  /** The file name ends in `ext` and something comes before it. */
  predicate EndsWithAfterStem(p: string, ext: string) {
    var f := FileName(p);
    |f| > |ext| && f[|f| - |ext|..] == ext
  }

  /** A path has extension `ext`, one '.' followed by no other '.', exactly when its file
      name ends in `ext` after a non-empty stem. */
  lemma ExtensionIff(p: string, ext: string)
    requires |ext| >= 2 && ext[0] == '.' && '.' !in ext[1..] && '/' !in ext
    ensures Extension(p) == ext <==> EndsWithAfterStem(p, ext)
  {
    if EndsWithAfterStem(p, ext) {
      ExtensionOfStem(p, ext);
    }
  }

  /** A file name ending in `ext` after a non-empty stem has extension `ext`. */
  lemma ExtensionOfStem(p: string, ext: string)
    requires |ext| >= 2 && ext[0] == '.' && '.' !in ext[1..]
    requires EndsWithAfterStem(p, ext)
    ensures Extension(p) == ext
  {
    var f := FileName(p);
    var i := |f| - |ext|;
    assert f[i..] == ext;
    forall j | i < j < |f| ensures f[j] != '.' {
      assert f[j] == ext[j - i];
      assert ext[j - i] in ext[1..];
    }
    LastIndexOfIs(f, '.', i);
    assert f != "..";
  }

  /** The last `c` is found at `i` when `s[i]` is `c` and no `c` follows it. */
  lemma {:induction false} LastIndexOfIs(s: string, c: char, i: nat)
    requires i < |s| && s[i] == c && forall j | i < j < |s| :: s[j] != c
    ensures LastIndexOf(s, c) == Some(i)
    decreases |s|
  {
    if i < |s| - 1 {
      LastIndexOfIs(s[..|s| - 1], c, i);
    }
  }

  /** `has_json_extension` holds exactly for file names ending in ".json" after a
      non-empty stem. */
  lemma JsonExtensionIff(p: string)
    ensures HasJsonExtension(p) <==> EndsWithAfterStem(p, ".json")
  {
    var ext := ".json";
    assert ext[1..] == "json";
    ExtensionIff(p, ext);
  }

  /** `has_markdown_extension` holds exactly for file names ending in ".md" or ".markdown"
      after a non-empty stem. */
  lemma MarkdownExtensionIff(p: string)
    ensures HasMarkdownExtension(p) <==> EndsWithAfterStem(p, ".md") || EndsWithAfterStem(p, ".markdown")
  {
    ShortMarkdownIff(p);
    LongMarkdownIff(p);
  }

  lemma ShortMarkdownIff(p: string)
    ensures Extension(p) == ".md" <==> EndsWithAfterStem(p, ".md")
  {
    var ext := ".md";
    assert ext[1..] == "md";
    ExtensionIff(p, ext);
  }

  lemma LongMarkdownIff(p: string)
    ensures Extension(p) == ".markdown" <==> EndsWithAfterStem(p, ".markdown")
  {
    var ext := ".markdown";
    assert ext[1..] == "markdown";
    ExtensionIff(p, ext);
  }

  // ---------------------------------------------------------------------------
  // Paths on disk

  /** `validate_file_exists`. */
  function ValidateFileExists(es: Entries, p: Path): (r: Outcome)
    ensures r.Pass? <==> p != [] && p in es && es[p].Regular?
    ensures !Exists(es, p) ==> r == Fail(Failure(FileNotFound, "File not found: " + PathText(p)))
    ensures Exists(es, p) && r.Fail? ==> r == Fail(Failure(InvalidInput, "Path is not a file: " + PathText(p)))
  {
    if !Exists(es, p) then Fail(Failure(FileNotFound, "File not found: " + PathText(p)))
    else if p == [] || es[p] == Dir then Fail(Failure(InvalidInput, "Path is not a file: " + PathText(p)))
    else Pass
  }

  /** `validate_directory_exists`. */
  function ValidateDirectoryExists(es: Entries, p: Path): (r: Outcome)
    ensures r.Pass? <==> IsDir(es, p)
    ensures !Exists(es, p) ==> r == Fail(Failure(DirectoryNotFound, "Directory not found: " + PathText(p)))
    ensures Exists(es, p) && r.Fail? ==> r == Fail(Failure(InvalidInput, "Path is not a directory: " + PathText(p)))
  {
    if !Exists(es, p) then Fail(Failure(DirectoryNotFound, "Directory not found: " + PathText(p)))
    else if !IsDir(es, p) then Fail(Failure(InvalidInput, "Path is not a directory: " + PathText(p)))
    else Pass
  }

  /** `validate_file_readable`: the file must exist, then open; `readable` says whether
      opening it for reading succeeds. */
  function ValidateFileReadable(es: Entries, p: Path, readable: bool): (r: Outcome)
    ensures r.Pass? <==> p != [] && p in es && es[p].Regular? && readable
    ensures ValidateFileExists(es, p).Fail? ==> r == ValidateFileExists(es, p)
    ensures ValidateFileExists(es, p).Pass? && !readable ==>
      r == Fail(Failure(PermissionDenied, "Cannot read file: " + PathText(p)))
  {
    match ValidateFileExists(es, p)
    case Fail(e) => Fail(e)
    case Pass => if readable then Pass else Fail(Failure(PermissionDenied, "Cannot read file: " + PathText(p)))
  }

  /** No path is both an existing file and an existing directory. */
  lemma FileAndDirectoryExclusive(es: Entries, p: Path)
    ensures !(ValidateFileExists(es, p).Pass? && ValidateDirectoryExists(es, p).Pass?)
  {
  }
}
