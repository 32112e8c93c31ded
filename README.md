# Yaqeen core, modelled in Dafny

Yaqeen turns a description of a project layout into directories and files on disk. The
description is either an ASCII/Unicode tree in a Markdown document or the JSON
`structure` of a template. This project models the core of that pipeline and proves
what it guarantees:

- **Tree model** (`nodes.dfy`): a `Node` is a directory or file with a name, optional
  file content and ordered children. `add_child`, `find_child` and `to_string` are
  modelled. `Preorder` gives the pre-order enumeration (depth, kind, name) that the
  parser, the renderer and the generator all follow.
- **Markdown parser** (`parser.dfy`): `parse_tree_structure` selects tree lines,
  toggling at each "```" fence. `parse_tree_lines` builds the tree with a stack of open
  nodes. `calculate_indent`, `extract_name` and `parse_line` read one line. The parse
  is proved to give exactly one node per non-blank line with a non-empty name. Each
  node's parent is the nearest earlier entry with a smaller indent. The stack never
  empties.
- **Renderer** (`visualizer.dfy`): `TreeVisualizer::visualize` draws one line per node,
  in pre-order, with Unicode or ASCII connectors.
- **Filesystem** (`filesystem.dfy`): an abstract map from paths to entries. Which
  directories may be written is a parameter (`readOnly`). `create_directories` and
  `ofstream` writes are functions on that map, and the class `Disk` holds it.
- **Generator** (`generator.dfy`, `generation_properties.dfy`): `FileGenerator` walks
  a tree depth-first. For each node it creates the directory or file, counts it and
  notifies the progress callback. The methods are proved equal to specification
  functions (`NodeRun`, `ChildrenRun`, `GenerateSpec`). Lemmas about those functions
  state the guarantees:
  - a failed validation changes nothing;
  - one callback per visited node, numbered 1, 2, … against the total `count_nodes(root)`;
  - the statistics count each visited node once;
  - a dry run changes nothing;
  - existing entries keep their kind, and nothing existing is rewritten without `overwrite`;
  - every visited node ends up on disk as what it is.
- **JSON structures** (`json.dfy`): `json_to_node_tree` and `json_to_node_recursive`.
  Members are visited in ascending key order, as nlohmann's `std::map`-backed objects
  iterate. Converting a canonical structure to a tree and back gives the structure again.
- **Templates** (`templates.dfy`):
  - `TemplateInfo::from_json` / `to_json`, with a round trip;
  - `Template::is_valid`, `validate_structure_recursive`, `validate_template`;
  - `TemplateManager`: the catalogue of loaded templates and its queries (listing,
    categories, category filter, search, lookup, validation, generation from a template).
- **Validators** (`validators.cpp` → `validators.dfy`): project/template name checks,
  directory and file name checks, file extensions, existence checks on the abstract
  filesystem.
- **Errors** (`errors.dfy`): the error codes, their identifiers and `Error::to_string`.
- **Progress** (`progress.dfy`):
  - `GenerationStats::format_duration` and its counters;
  - the position of `ProgressBar`;
  - `ConsoleProgress`, whose printed text is a field, together with the percentage deduplication it performs.

Conventions of the model:

- Strings are sequences of code points standing for UTF-8 text. Where the source counts
  bytes (the 255 limit of `validate_project_name`, `file_size`), `Utf8Length` counts them.
- A path is the list of its segments relative to the working directory. The empty path
  is the working directory itself: it always exists and is a directory, and prints as ".".
- The root node of a generation is created at the output directory itself (the source
  calls `generate_node(root, output_dir, …)`), not at `output_dir/root-name`.
- `generate_node` does not descend into the children of a *file* node, but `count_nodes`
  counts them. The Markdown parser can produce such children (an entry below a file
  entry), so the callback's `total` and the sum of the statistics can disagree. The
  model follows the code:
  - `VisitsCount` proves the walk visits at most `count_nodes` nodes, exactly that many
    iff no file node has children, and `FileWithChildExample` exhibits a tree where the
    two differ;
  - trees built from JSON never give a file children (`StructureFileLeaves`), so for
    template generation the counts agree (`TemplateGenerationCounts`).
- `create_file` never returns its `FileAlreadyExists` error: with `overwrite` off an
  existing path is skipped as a success before that check. `CreateFileNeverRefusesExisting`
  states this.
- The `c < 32` test of `is_valid_directory_name` is commented as rejecting control
  characters. It compares a `char`, which is signed on the usual platforms, so every byte
  of a non-ASCII character is also below 32 and rejected. The model follows the code:
  only ASCII characters from 32 to 127, other than `<>:"|?*`, are allowed.
- `calculate_indent` counts ' ', '\t', '|', '/' and '\\' and stops at the first other
  byte, so a box-drawing prefix gives level 0 (`IndentExamples`).

## Model

| member | source | states |
|---|---|---|
| Errors.Failure | src/utils/error.cpp:27-34 | an error built without details carries exactly the given code and message |
| Errors.CodeToString | src/utils/error.cpp:6-25 | every code's identifier is non-empty and contains no ']' |
| Errors.CodeStringRoundTrip | src/utils/error.cpp:6-25 | each code's identifier reads back as that code |
| Errors.CodeToStringInjective | src/utils/error.cpp:6-25 | distinct codes print as distinct identifiers |
| Errors.ToString | src/utils/error.cpp:27-34 | the text starts with "[code] message"; the "\n  Details: " line is appended iff details are present and non-empty; otherwise the text is exactly "[code] message" |
| Errors.ToStringDeterminesCode | src/utils/error.cpp:27-34 | two printed errors with equal texts have equal codes |
| Nodes.MakeNode | src/core/parser.cpp:141-142 | a new node has the given kind and name, no content and no children |
| Nodes.AddChild | src/core/parser.cpp:13-15 | the child becomes the last child, earlier children, kind, name and content are unchanged, and the size grows by the child's size |
| Nodes.PreorderAddChild | src/core/parser.cpp:13-15 | adding a child appends its subtree, one level deeper, to the enumeration |
| Nodes.PreorderInjective | src/core/parser.cpp:13-47 | without file content, two trees with the same enumeration are equal |
| Nodes.FindChild | src/core/parser.cpp:17-31 | the result is a child with that name and no earlier child has it; none exactly when no child has that name |
| Nodes.FirstNamed | src/core/parser.cpp:17-31 | the index found is the first at or after the start with that name |
| Nodes.ToStringIsPreorder | src/core/parser.cpp:33-47 | `to_string` prints the pre-order enumeration, one node per line, indented by two spaces per level, directories marked with "/" |
| Nodes.IndentedLines | src/core/parser.cpp:33-47 | each line is the node's label after two spaces per level |
| Parser.SplitLines | src/core/parser.cpp:86-113 | the lines `getline` yields hold no newline |
| Parser.SplitLinesRoundTrip | src/core/parser.cpp:86-113 | joining the lines with newlines gives the document back, with a final newline |
| Parser.TreeLineChars | src/core/parser.cpp:186-198 | `is_tree_line` holds iff the line holds a branch glyph or '/', or holds '.' and is not blank |
| Parser.SelectedHasNoFence | src/core/parser.cpp:95-106 | no collected line contains a fence marker |
| Parser.SelectedEmpty | src/core/parser.cpp:95-110 | nothing is collected exactly when no line is inside a fence or tree-like outside one |
| Parser.LeadingRun | src/core/parser.cpp:172-184 | the counted prefix is made of indentation characters and is followed by none |
| Parser.CalculateIndent | src/core/parser.cpp:172-184 | the level is the length of the leading run of ' ', '\t', '\|', '/', '\\' divided by four |
| Parser.IndentExamples | src/core/parser.cpp:172-184 | four spaces are one level, eight are two, and a box-drawing prefix is level 0 |
| Parser.FirstNotIn | src/core/parser.cpp:217-218 | `find_first_not_of`: the first position outside the set, or none |
| Parser.LastNotIn | src/core/parser.cpp:217-218 | `find_last_not_of`: the last position outside the set, or none |
| Parser.ReplaceTokens | src/core/parser.cpp:205-214 | the loop over the tree tokens gives the line with every token replaced, token by token, in list order |
| Parser.ReplaceAll | src/core/parser.cpp:210-213 | replacing the first occurrence by a space until none is left computes `StripToken` |
| Parser.ExtractName | src/core/parser.cpp:200-236 | the loop of replacements, trimming and classification computes `ExtractNameSpec` |
| Parser.StripTokensRemoves | src/core/parser.cpp:209-214 | after the replacements no single-character token that appears in the list is left |
| Parser.CleanedHasNoGlyph | src/core/parser.cpp:205-214 | after the replacements no branch glyph and no '\|' remains |
| Parser.CleanedIdentity | src/core/parser.cpp:205-214 | a line without branch glyphs and '\|' is left unchanged by the replacements |
| Parser.TrimmedShape | src/core/parser.cpp:217-224 | the trimmed text is a piece of the input that does not start with a space or tab; it is empty iff the input is all spaces and tabs, or starts with neither and is all whitespace (the `substr` count `npos - 0 + 1` wraps to 0) |
| Parser.ExtractNameProperties | src/core/parser.cpp:200-236 | the name contains no branch glyph or '\|' and does not start with a space or tab; it is a directory iff the entry ended in '/' or the name has no '.'; it is empty iff the entry was blank or just "/" |
| Parser.ExtractNameSlashExample | src/core/parser.cpp:227-230 | "src/" gives the directory "src" |
| Parser.CarriageReturnGlyphName | src/core/parser.cpp:205-224 | the line "\r│" is cleaned to "\r ", and its trimmed name is empty: the `substr` count wraps to 0 |
| Parser.CarriageReturnGlyphLineSkipped | src/core/parser.cpp:121-128 | the line "\r│" is not blank, yet gives no entry |
| Parser.StripTokensSplit | src/core/parser.cpp:205-214 | replacing a list of tokens is replacing a prefix of the list, then the rest |
| Parser.ExtractNameCarriageReturnExample | src/core/parser.cpp:217-224 | trimming the end also strips CR/LF, but the start only strips spaces and tabs, so " \r " names "\r " |
| Parser.ParseLine | src/core/parser.cpp:154-170 | a line gives its indent level and a non-empty extracted name, or nothing when the name is empty |
| Parser.NearestBelow | src/core/parser.cpp:131-133 | the found entry is the nearest earlier one with a smaller indent, or the root |
| Parser.Depth | src/core/parser.cpp:140-148 | every entry lies at least one level below the root |
| Parser.Pop | src/core/parser.cpp:131-133 | closing the top frame keeps every frame below it and their levels |
| Parser.StackedPop | src/core/parser.cpp:131-133 | popping a frame at least as deep as the new entry keeps the stack shape and never empties it |
| Parser.StackedPush | src/core/parser.cpp:140-148 | after popping, the top frame is the new entry's parent, and pushing it keeps levels strictly increasing |
| Parser.AddEntry | src/core/parser.cpp:125-148 | one iteration adds the entry under its parent and keeps the stack invariant |
| Parser.EntryStep | src/core/parser.cpp:121-128 | a blank line or one with an empty name adds no entry; any other adds exactly its parsed entry |
| Parser.TakeLine | src/core/parser.cpp:120-148 | one iteration keeps the stack invariant and accounts for the entries of the lines read so far |
| Parser.ParseTreeLines | src/core/parser.cpp:115-152 | the root is a directory named "root"; every non-blank line with a non-empty name adds exactly one node, in input order, as the last child of the nearest earlier entry with a smaller indent |
| Parser.SelectStep | src/core/parser.cpp:95-106 | one more line is collected iff it is kept, and a fence line toggles being inside a fence |
| Parser.ParseTreeStructure | src/core/parser.cpp:86-113 | fails with `InvalidMarkdownFormat` exactly when no line is collected; otherwise the tree is that of the collected lines |
| Visualizer.Branch | src/core/parser.cpp:266-267 | the connector is four characters wide |
| Visualizer.Extension | src/core/parser.cpp:266-267 | the added prefix is four characters wide |
| Visualizer.VisualizeRecursive | src/core/parser.cpp:259-281 | appends the node's line (prefix, connector, name, "/" for a directory) and then each child's drawing with the extended prefix, the last child drawn as last |
| Visualizer.Visualize | src/core/parser.cpp:239-253 | the output is the root's label followed by its drawn subtrees |
| Visualizer.NodeLinesShow | src/core/parser.cpp:259-281 | the lines drawn for a subtree show its pre-order enumeration |
| Visualizer.NodeLinesText | src/core/parser.cpp:259-281 | the lines drawn for a subtree, joined with newlines, are its drawing |
| Visualizer.RenderIsPreorder | src/core/parser.cpp:239-281 | the drawing has one line per node in pre-order; each line has four drawing characters per level of depth, followed by the node's name and "/" for directories |
| Visualizer.RenderColumns | src/core/parser.cpp:246-280 | read off the enumeration alone: the line of a node at depth d has at level d the connector of a last child ("└── " or "`-- ") exactly when no sibling follows it, and another connector otherwise ("├── " or "\|-- "); at each level above, four spaces exactly when the node's ancestor at that depth has no later sibling, otherwise a continuing line ("│   " or "\|   ") |
| Visualizer.AncestorColumns | src/core/parser.cpp:266-280 | the column of level k above a line's own level is decided by the nearest earlier item at depth k, its ancestor: "    " when that ancestor is a last child, a continuing line otherwise |
| FileSystem.Parent | src/core/generator.cpp:81-82 | the parent path is one segment shorter and a prefix |
| FileSystem.ChildPath | src/core/generator.cpp:176 | `path / name` extends the path by the '/'-separated parts of the name, empty and "." parts dropped |
| FileSystem.SegmentsOfPlainName | src/core/generator.cpp:176 | a name without '/' other than "." is one segment |
| FileSystem.SegmentsJoin | src/core/generator.cpp:176 | appending "a/b" is appending "a" and then "b" |
| FileSystem.SegmentsAreNames | src/core/generator.cpp:176 | every segment is non-empty, not ".", and holds no '/' |
| FileSystem.PathText | src/core/generator.cpp:120-121 | the working directory prints as "." |
| FileSystem.MakeDirsSpec | src/core/generator.cpp:124-130 | `create_directories` only adds directories that are prefixes of the path, keeps existing entries and well-formedness, and on success the path is a directory |
| FileSystem.MakeDirsOnExisting | src/core/generator.cpp:115-122 | on an existing path nothing changes, with an error when it is not a directory |
| FileSystem.WriteFileSpec | src/core/generator.cpp:93-102 | a write succeeds exactly when the path is a writable file or its parent is a writable directory; it then sets that file's content and nothing else |
| FileSystem.Utf8Length | src/core/generator.cpp:193-195 | a character takes one to four bytes |
| FileSystem.Disk.CreateDirectories | src/core/generator.cpp:124-130 | the disk changes as `MakeDirsSpec` describes |
| FileSystem.Disk.Write | src/core/generator.cpp:93-102 | the disk changes as `WriteFileSpec` describes, or not at all |
| Json.Keys | src/core/generator.cpp:274-312 | an object's keys are visited once each, in ascending order |
| Json.StripSlash | src/core/generator.cpp:274-312 | a trailing '/' is dropped, and a key without one is kept |
| Json.MemberNode | src/core/generator.cpp:274-312 | a member becomes a directory iff its key ends in '/' or its value is an object; a file gets its value as content only when that is a non-empty string |
| Json.StructureTree | src/core/generator.cpp:259-272 | the root is a directory named after the project, with one child per member |
| Json.JsonToNodeRecursive | src/core/generator.cpp:274-312 | appends one child per member to the parent, in key order |
| Json.MemberToNode | src/core/generator.cpp:279-310 | the loop body builds the member's node |
| Json.JsonToNodeTree | src/core/generator.cpp:259-272 | a non-object gives `InvalidJSONFormat`; an object gives its tree |
| Json.StructureRoundTrip | src/core/generator.cpp:259-312 | converting a canonical structure to a tree and back gives the structure again |
| Json.ChildrenInKeyOrder | src/core/generator.cpp:274-312 | the children carry the keys in ascending order, stripped of a trailing '/' |
| Generator.StatsToStringInjective | src/core/generator.cpp:11-19 | different statistics print differently |
| Generator.Arrive | src/core/generator.cpp:155-163 | arriving at a node takes the next number and changes neither the disk nor the statistics |
| Generator.FileGenerator.constructor | src/core/generator.cpp:22-23 | a new generator has zero statistics and no notices |
| Generator.FileGenerator.CreateFile | src/core/generator.cpp:63-107 | the disk and outcome are those `create_file` specifies: dry run, skip, parent creation, write |
| Generator.FileGenerator.CreateDirectory | src/core/generator.cpp:109-134 | the disk and outcome are those `create_directory` specifies: dry run, existing directory, existing file, creation |
| Generator.FileGenerator.Validate | src/core/generator.cpp:136-153 | the outcome is that of checking that the output's parent exists and is writable |
| Generator.FileGenerator.NotifyProgress | src/core/generator.cpp:216-230 | one notice is recorded when a callback is set; the statistics do not change |
| Generator.FileGenerator.GenerateNode | src/core/generator.cpp:155-199 | the walk of one node changes the disk, statistics, notices and counter as `NodeRun` specifies |
| Generator.FileGenerator.GenerateChildren | src/core/generator.cpp:174-181 | the children are walked in order, each at `path / name`, stopping at the first that does not complete, as `ChildrenRun` specifies |
| Generator.FileGenerator.CountNodes | src/core/generator.cpp:201-209 | the count is the number of nodes of the subtree |
| Generator.FileGenerator.Generate | src/core/generator.cpp:25-61 | validate, reset the statistics and walk from the root at the output path, as `GenerateSpec` specifies |
| Generator.GenerateFromJson | src/core/generator.cpp:234-257 | a non-object structure is refused with `InvalidJSONFormat` and nothing changes; otherwise its tree is generated at the output directory by a fresh generator |
| GenerationProperties.Visits | src/core/generator.cpp:155-199 | the walk visits the node first, at its path, with its kind, and each child at `path / name` |
| GenerationProperties.VisitsCount | src/core/generator.cpp:155-209 | the walk visits at most `count_nodes` nodes, and exactly that many iff no file node has children |
| GenerationProperties.FileWithChildExample | src/core/generator.cpp:155-209 | a file with a child: `count_nodes` gives 3 and the walk visits 2 |
| GenerationProperties.StructureFileLeaves | src/core/generator.cpp:274-312 | a tree built from JSON has no file with children |
| GenerationProperties.Announced | src/core/generator.cpp:216-230 | one notice per visit when a callback is set, none otherwise |
| GenerationProperties.AnnouncedAt | src/core/generator.cpp:216-230 | the j-th notice is about the j-th visit and carries number start + j |
| GenerationProperties.NodeRunCurrent | src/core/generator.cpp:155-199 | a walk numbers at least the node itself and at most its visits, and all of them when it completes |
| GenerationProperties.NodeRunProgress | src/core/generator.cpp:155-199 | a walk numbers the visited nodes consecutively from current + 1, sending one notice each, in order |
| GenerationProperties.NodeRunCounts | src/core/generator.cpp:172-190 | a completed walk counts each visited directory in `dirs_created` and each visited file in `files_created` |
| GenerationProperties.CreateDirectoryEffect | src/core/generator.cpp:109-134 | `create_directory` only adds directories; a dry run changes nothing; on success the path is a directory |
| GenerationProperties.CreateFileNeverRefusesExisting | src/core/generator.cpp:73-78 | an existing path without overwriting is skipped as a success, so `FileAlreadyExists` is never returned |
| GenerationProperties.CreateFileEffect | src/core/generator.cpp:63-107 | `create_file` keeps every entry's kind, and every entry without overwriting; a dry run changes nothing; on success the file exists |
| GenerationProperties.NodeRunEffect | src/core/generator.cpp:155-199 | a walk keeps every entry's kind, rewrites nothing without overwriting, changes nothing in a dry run, and keeps the filesystem well formed |
| GenerationProperties.NodeRunMaterializes | src/core/generator.cpp:155-199 | a completed walk outside a dry run leaves every visited node on disk as what it is |
| GenerationProperties.FileBelowFile | src/core/generator.cpp:81-97 | a file whose parent path is an existing file stops with `CannotCreateFile` and changes nothing on disk |
| GenerationProperties.NestedNameBelowFile | src/core/generator.cpp:174-181 | a file "a" followed by a sibling named "a/b.txt" makes the generation fail with `CannotCreateFile` "Cannot create file: p/a/b.txt" |
| GenerationProperties.DirectoryOverFile | src/core/generator.cpp:115-122 | a directory node at a file's path stops with `FileAlreadyExists` and changes nothing on disk |
| GenerationProperties.GenerateRefused | src/core/generator.cpp:32-35 | a failed validation is returned before anything changes |
| GenerationProperties.GenerateNotices | src/core/generator.cpp:42-46 | a successful run has sent one notice per visited node, numbered 1, 2, … against `count_nodes(root)` |
| GenerationProperties.GenerateCounts | src/core/generator.cpp:37-49 | on success, the statistics count each visited node once, as a directory or a file, and add up to `count_nodes(root)` iff no file has children |
| GenerationProperties.GenerateEffect | src/core/generator.cpp:25-61 | any run keeps existing entries and their kinds; a dry run changes nothing; a successful run leaves every visited node on disk |
| GenerationProperties.TemplateGenerationCounts | src/core/generator.cpp:234-257 | generating a template creates one directory or file per node of its tree |
| Templates.ParseFailure | src/core/template_manager.cpp:34-38 | every library exception becomes `InvalidJSONFormat` "Failed to parse template info" |
| Templates.GetString | src/core/template_manager.cpp:16-17 | reading a string succeeds exactly on a string |
| Templates.GetStrings | src/core/template_manager.cpp:21-23 | reading a string array succeeds exactly when every item is a string, and keeps them in order |
| Templates.Required | src/core/template_manager.cpp:16-17 | `at(key)` succeeds exactly when the key holds a string |
| Templates.WithDefault | src/core/template_manager.cpp:18-19 | a missing key gives the default; a present key must hold a string |
| Templates.Optional | src/core/template_manager.cpp:25-31 | a missing key gives nothing; a present one must hold a string |
| Templates.Tags | src/core/template_manager.cpp:21-23 | tags are read only from an array under "tags" |
| Templates.FromJson | src/core/template_manager.cpp:13-39 | every failure is `InvalidJSONFormat` "Failed to parse template info" |
| Templates.FromJsonFields | src/core/template_manager.cpp:13-39 | a missing name or description fails; on success the version defaults to "1.0.0" and the category to "other" |
| Templates.StringArray | src/core/template_manager.cpp:41-58 | the tags are written as an array of strings in order |
| Templates.ToJson | src/core/template_manager.cpp:41-58 | the five fields are always written; author and repository are written exactly when set |
| Templates.InfoRoundTrip | src/core/template_manager.cpp:13-58 | reading back what `to_json` writes gives the same metadata |
| Templates.ValidateTemplate | src/core/template_manager.cpp:255-266 | passes iff the template is valid and its structure is valid; `TemplateInvalid` comes first, then `InvalidTemplateStructure` |
| Templates.CanonicalIsValid | src/core/template_manager.cpp:329-348 | a structure that round-trips with its tree is a valid structure |
| Templates.ValidatedTemplateConverts | src/core/template_manager.cpp:255-266 | a validated template's structure is an object whose tree has a directory for every object value and a file for every string |
| Templates.CatalogueSpec | src/core/template_manager.cpp:312-327 | the catalogue holds exactly the loaded names, each stored under its own name, the last one loaded winning |
| Templates.SelectionMembers | src/core/template_manager.cpp:172-204 | a selection holds exactly the selected metadata of the named templates |
| Templates.EmptyQuerySelectsAll | src/core/template_manager.cpp:186-204 | an empty query selects every template |
| Templates.CategoriesOfMembers | src/core/template_manager.cpp:160-170 | the gathered categories are those of the named templates |
| Templates.CategoriesOfAll | src/core/template_manager.cpp:160-170 | over all stored names, the categories are those of all stored templates |
| Templates.TemplateManager.constructor | src/core/template_manager.cpp:115-118 | a new manager is empty and not initialised |
| Templates.TemplateManager.Initialize | src/core/template_manager.cpp:121-132 | a missing directory gives `DirectoryNotFound`; otherwise the catalogue is loaded |
| Templates.TemplateManager.LoadTemplates | src/core/template_manager.cpp:134-146 | the map is replaced by the catalogue of the loaded templates |
| Templates.TemplateManager.ListTemplates | src/core/template_manager.cpp:148-158 | every stored name exactly once, in ascending order |
| Templates.TemplateManager.ListCategories | src/core/template_manager.cpp:160-170 | ascending, without repetition, and exactly the categories of the stored templates |
| Templates.TemplateManager.CollectCategories | src/core/template_manager.cpp:163-165 | the set holds exactly the stored templates' categories |
| Templates.TemplateManager.ListTemplatesInCategory | src/core/template_manager.cpp:172-184 | the metadata of the templates of that category, in the map's iteration order, given as a parameter |
| Templates.TemplateManager.SearchTemplates | src/core/template_manager.cpp:186-204 | the metadata of the templates whose lower-cased name or description contains the lower-cased query, in the map's iteration order |
| Templates.TemplateManager.Select | src/core/template_manager.cpp:172-204 | the stored templates the filter selects, in the map's iteration order; the result is exactly the selected metadata of the stored templates |
| Templates.TemplateManager.GetTemplate | src/core/template_manager.cpp:206-213 | finds the stored template, or `TemplateNotFound` "Template not found: name" |
| Templates.TemplateManager.GetTemplateInfo | src/core/template_manager.cpp:215-222 | the found template's metadata, or the same error |
| Templates.TemplateManager.ValidateAllTemplates | src/core/template_manager.cpp:268-279 | the loop over the map in its iteration order returns what `ValidateAll` gives for that order: passes iff every stored template validates, and otherwise a stored template's error |
| Templates.ValidateAllPass | src/core/template_manager.cpp:268-279 | validating a list of names passes iff every named template validates |
| Templates.ValidateAllFirst | src/core/template_manager.cpp:268-279 | a failure is the error of the first named template that fails, every earlier one passing |
| Templates.ValidateAllStored | src/core/template_manager.cpp:268-279 | over the stored names in any order, passes iff every stored template validates, and otherwise returns a stored template's error |
| Templates.SelectionOfStored | src/core/template_manager.cpp:172-204 | over the stored names in any order, the selection is exactly the selected metadata of the stored templates |
| Templates.SelectionOrderFree | src/core/template_manager.cpp:172-204 | two orders of the same names select the same metadata, up to order |
| Templates.EnumerationsArePermutations | src/core/template_manager.cpp:172-204 | two iteration orders of the same map are permutations of each other |
| Templates.StoredSelectionOrderFree | src/core/template_manager.cpp:172-204 | whatever the map's iteration order, a filter selects the same metadata, up to order |
| Templates.TemplateManager.GenerateFromTemplate | src/core/template_manager.cpp:228-253 | an unknown name gives `TemplateNotFound`, an invalid template its validation error, both without touching the disk; otherwise the template is generated from its structure |
| Templates.HasTemplateIffFound | src/core/template_manager.cpp:206-226 | `has_template` holds iff `get_template` succeeds, with the template of that name; otherwise the error is `TemplateNotFound` |
| Validators.ValidateProjectName | src/utils/validators.cpp:66-83 | passes iff non-empty, at most 255 bytes and every character in [A-Za-z0-9_-]; each failure is `InvalidInput`, with the empty and too-long cases checked first |
| Validators.ValidateTemplateName | src/utils/validators.cpp:85-98 | passes iff non-empty and every character in [A-Za-z0-9_-]; failures are `InvalidInput` |
| Validators.DirectoryNameRules | src/utils/validators.cpp:109-126 | an accepted name is not "", "." or "..", and contains no forbidden, control or non-ASCII character |
| Validators.ProjectNameIsDirectoryName | src/utils/validators.cpp:66-130 | every accepted project name is a valid directory name and filename and a valid template name |
| Validators.TemplateNameHasNoLengthLimit | src/utils/validators.cpp:66-98 | 256 letters pass as a template name but not as a project name |
| Validators.AsciiLength | src/utils/validators.cpp:71-73 | ASCII text takes one byte per character |
| Validators.LastIndexOf | src/utils/validators.cpp:132-139 | the last occurrence of a character, or none |
| Validators.FileName | src/utils/validators.cpp:132-139 | the file name is the suffix after the last '/' |
| Validators.Extension | src/utils/validators.cpp:132-139 | the extension starts with the file name's last '.', not at its start, and the file name ends with it |
| Validators.ExtensionIff | src/utils/validators.cpp:132-139 | the extension is `ext` iff the file name ends in `ext` after a non-empty stem |
| Validators.JsonExtensionIff | src/utils/validators.cpp:137-139 | `has_json_extension` holds iff the file name ends in ".json" after a non-empty stem |
| Validators.MarkdownExtensionIff | src/utils/validators.cpp:132-135 | `has_markdown_extension` holds iff the file name ends in ".md" or ".markdown" after a non-empty stem |
| Validators.ValidateFileExists | src/utils/validators.cpp:10-18 | passes iff the path is an existing file; otherwise `FileNotFound` or `InvalidInput` |
| Validators.ValidateDirectoryExists | src/utils/validators.cpp:20-28 | passes iff the path is a directory; otherwise `DirectoryNotFound` or `InvalidInput` |
| Validators.ValidateFileReadable | src/utils/validators.cpp:52-64 | passes iff the path is an existing file that opens |
| Validators.FileAndDirectoryExclusive | src/utils/validators.cpp:10-28 | no path passes both existence checks |
| Progress.FormatDurationShape | src/ui/progress.cpp:175-187 | below one second the text is the milliseconds and "ms"; from one second on it is seconds, ".", two truncated hundredths and "s" |
| Progress.DurationMarker | src/ui/progress.cpp:175-187 | the character after the leading digits tells the two forms apart |
| Progress.FormatDurationInjective | src/ui/progress.cpp:175-187 | the text gives the duration back: exactly below a second, to the hundredth above |
| Progress.GenerationStats.constructor | src/ui/progress.cpp:94-98 | both counters start at zero |
| Progress.GenerationStats.IncrementFiles | src/ui/progress.cpp:100-102 | adds one to the file counter only |
| Progress.GenerationStats.IncrementDirectories | src/ui/progress.cpp:104-106 | adds one to the directory counter only |
| Progress.ProgressBar.constructor | src/ui/progress.cpp:12-14 | a new bar is at position 0 with the given total and width |
| Progress.ProgressBar.Update | src/ui/progress.cpp:16-18 | the new position replaces the old one |
| Progress.ProgressBar.SetCurrentItem | src/ui/progress.cpp:20-22 | replaces only the item |
| Progress.ProgressBar.SetStatus | src/ui/progress.cpp:24-26 | replaces only the status |
| Progress.BarCompleteAfterUpdate | src/ui/progress.cpp:89-91 | after an update the bar is complete iff the position is at least the total |
| Progress.Quot | src/ui/progress.cpp:285 | C++ integer division truncates toward zero |
| Progress.PercentageBounds | src/ui/progress.cpp:284-291 | between 0 and the total, the percentage lies in 0..100 and grows with the position |
| Progress.SelfPercentage | src/ui/progress.cpp:278-282 | the total is 100 percent of itself |
| Progress.PrintStep | src/ui/progress.cpp:284-291 | a line is written iff the percentage differs from the last; the new percentage is remembered |
| Progress.PrintStepTwice | src/ui/progress.cpp:284-291 | printing twice at the same position writes nothing the second time |
| Progress.PrintedIncreasing | src/ui/progress.cpp:284-291 | moving forward to the total, the printed percentages strictly increase and never exceed 100 |
| Progress.ConsoleProgress.constructor | src/ui/progress.cpp:265-267 | starts at position 0 with no percentage printed |
| Progress.ConsoleProgress.PrintProgress | src/ui/progress.cpp:284-291 | writes and remembers as `PrintStep` specifies |
| Progress.ConsoleProgress.Update | src/ui/progress.cpp:269-276 | verbose with an item writes the item line and keeps the remembered percentage; otherwise prints the progress |
| Progress.ConsoleProgress.Complete | src/ui/progress.cpp:278-282 | moves to the total, remembers 100 and ends the line |
| Strings.Find | src/core/template_manager.cpp:198-199 | `find` gives the first occurrence, and none exactly when the pattern does not occur |
| Strings.NatToStringRoundTrip | src/core/generator.cpp:11-19 | decimal output reads back as the number |
| Strings.PadTwo | src/ui/progress.cpp:180-181 | at least two digits with the value of the number |
| Strings.Sort | src/core/template_manager.cpp:156 | `std::sort` gives an ascending permutation |
| Strings.SortOfSorted | src/core/template_manager.cpp:156-167 | sorting an ascending sequence leaves it unchanged |
| Strings.SortedSetSpec | src/core/template_manager.cpp:161-167 | a `std::set` is iterated once per element, in ascending order |
| Strings.SortedElements | src/core/template_manager.cpp:161-167 | the elements of a set, least first |
| Strings.ToLower | src/core/template_manager.cpp:190-195 | `::tolower` changes only 'A'..'Z' |

## Left out

- `src/main.cpp` (command line parsing, screen output), `src/ui/theme.cpp`, `src/ui/animations.cpp` and `src/utils/logger.cpp` are not part of this model. The log calls in the core are left out.
- Real filesystem I/O is an abstract map from paths to entries, and writability is the set `readOnly`. Symbolic links, races and operating-system error texts other than "Not a directory" and "Permission denied" are not modelled.
- `validate_path_writable` is modelled as "the output's parent exists, is a directory and is writable". Its probe file, named after the current time, is left out.
- `MarkdownParser::parse` reads a file and is left out. `parse_tree_structure` is modelled on the document text.
- Loading templates from disk is not modelled. That covers `scan_directory`'s directory walk, `Template::load_from_file`, JSON text parsing, `validate_json_format` and `get_default_templates_directory`. The templates the scan loads, in scan order, are a parameter, and the default constructor's directory search is left out.
- Clocks are not modelled. The elapsed time of `generate` is a parameter `elapsedMs`, and `GenerationStats::start_timer`, `stop_timer` and `get_elapsed` are left out.
- `total_size` is given its defining update (the written file's size in bytes) and nothing more is proved about it.
- Floating point is not modelled. That covers `ProgressBar::get_percentage`, every ftxui `render*` function, `ProgressDisplay` and the `setw` column formatting of `TemplateDisplay`.
- `std::atomic` counters are plain integers. Concurrency is not modelled.
- JSON numbers are integers. Only the JSON type of a value matters to the modelled code.
- `std::regex_match` is a character-class predicate.
- `TreeVisualizer::print` writes to standard output and is left out. `visualize` is modelled.
- Progress.ConsoleProgress.PrintProgress: does not model `int` overflow of `current * 100`, and requires a non-zero total because the source divides by it.
- Generator.FileGenerator.CountNodes: does not model `size_t` overflow.
- Nodes are values. The in-place mutation of `unique_ptr` children is modelled by rebuilding the parent, which is the same observable tree.
- Generator.GeneratorOptions: `TemplateOptions` takes no `overwrite` switch. The generator's default for it is taken as off, because the header that declares it is not part of this model.
- Templates.TemplateManager.GenerateFromTemplate: the `output_dir` and `project_name` arguments are ignored by the source; the model takes only the template options, which carry both.
- An empty JSON key makes `name.back()` undefined in `json_to_node_recursive`. The model treats such a key as not ending in '/'.
- Errors from the JSON library are modelled as their `what()` texts in the format of nlohmann/json 3.11: "type must be string, but is …", "cannot use at() with …" and "key '…' not found".
- Validators.IsValidDirectoryName: assumes `char` is signed, as on x86. Where `char` is unsigned, non-ASCII bytes pass the `< 32` test.
- Generator.ValidateSpec: when the output path has one segment, `validate_path_writable` probes `current_path()` and its error texts print that absolute path; the model's paths are relative, so the working directory prints as "." there. Generator.FileGenerator.Validate and the callers of `validate` (Generator.FileGenerator.Generate, Generator.GenerateFromJson, Templates.TemplateManager.GenerateFromTemplate) inherit this.
- Generator.FileGenerator.GenerateNode, Generator.FileGenerator.GenerateChildren, Generator.FileGenerator.Generate, Generator.GenerateFromJson, GenerationProperties.NodeRunMaterializes, GenerationProperties.GenerateEffect: `path / name` is modelled by `ChildPath`, which splits a name on '/' and drops empty and "." parts. A name starting with '/' (which makes `operator/` replace the whole path) and ".." parts (which climb out of the path) are not modelled; they are treated as ordinary parts.
- FileSystem.ChildPath: drops empty and "." parts wherever they stand. A name ending in "/" or "/." (such as "a/." or "x//") makes the source's path require its last part to be a directory; the model forgets this. So a file node "a/." writes (or skips) a regular file `a` where the source fails with `CannotCreateFile`, and a directory node "x//" over an existing file `x` gives `FileAlreadyExists` where the source's `create_directories` gives `CannotCreateDirectory`. The generator members named on the line above inherit this.
- FileSystem.PathText: prints the path's segments joined by '/', that is the normalised path. The raw text `operator/` builds, with doubled '/', a trailing '/' or "." parts left in, is not reproduced in error messages.
- The iteration order of `templates_` is a parameter (`order`, any enumeration of the stored names without repetition) of `list_templates_in_category`, `search_templates` and `validate_all_templates`, because the declaration of the container is not part of this model. `SelectionOrderFree` and `ValidateAllStored` show what does not depend on it. Templates.TemplateManager.ListTemplates and Templates.TemplateManager.ListCategories walk the names in ascending order; their results are sorted (or gathered into a set) and do not depend on the order.
- The verbose log line of `notify_progress` is commented out in the source and is not modelled.
