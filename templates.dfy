/** The template catalogue of src/core/template_manager.cpp: template metadata read from
    and written to JSON, the validity checks on a template and its structure, and
    `TemplateManager`, which keeps the loaded templates in a map from name to template and
    answers listing, category, search and lookup queries over it. */
module Templates {
  import opened Wrappers
  import opened Errors
  import opened Strings
  import opened Nodes
  import opened FileSystem
  import opened Json
  import opened Generator

  /** `TemplateInfo`. */
  datatype TemplateInfo = TemplateInfo(
    name: string,
    description: string,
    version: string,
    category: string,
    tags: seq<string>,
    author: Option<string>,
    repository: Option<string>)

  /** `Template`: its metadata, its structure and the file it came from. */
  datatype Template = Template(info: TemplateInfo, structure: Json, sourcePath: string)

  const DefaultVersion: string := "1.0.0"
  const DefaultCategory: string := "other"

  // ---------------------------------------------------------------------------
  // Metadata from and to JSON

  /** The name the JSON library gives the type of a value in its messages. */
  function TypeName(j: Json): string {
    match j
    case JNull => "null"
    case JBool(_) => "boolean"
    case JNumber(_) => "number"
    case JString(_) => "string"
    case JArray(_) => "array"
    case JObject(_) => "object"
  }

  /** The error `from_json` turns every JSON library exception into, `what` being the
      exception's text. */
  function ParseFailure(what: string): (e: Error)
    ensures e.code == InvalidJSONFormat && e.message == "Failed to parse template info"
  {
    Error(InvalidJSONFormat, "Failed to parse template info", Some(what))
  }

  /** `get<std::string>()`. */
  function GetString(j: Json): (r: Result<string>)
    ensures r.Ok? <==> j.JString?
    ensures r.Ok? ==> r.value == j.str
    ensures r.Err? ==> r.error.code == InvalidJSONFormat && r.error.message == "Failed to parse template info"
  {
    if j.JString? then Ok(j.str)
    else Err(ParseFailure("[json.exception.type_error.302] type must be string, but is " + TypeName(j)))
  }

  /** `get<std::vector<std::string>>()` on an array: every item must be a string. */
  function GetStrings(items: seq<Json>): (r: Result<seq<string>>)
    ensures r.Ok? <==> forall i | 0 <= i < |items| :: items[i].JString?
    ensures r.Ok? ==> |r.value| == |items| && forall i | 0 <= i < |items| :: r.value[i] == items[i].str
    ensures r.Err? ==> r.error.code == InvalidJSONFormat && r.error.message == "Failed to parse template info"
  {
    if items == [] then Ok([])
    else
      match GetString(items[0])
      case Err(e) => Err(e)
      case Ok(head) =>
        match GetStrings(items[1..])
        case Err(e) => Err(e)
        case Ok(rest) => Ok([head] + rest)
  }

  /** `json.at(key).get<std::string>()` on an object. */
  function Required(fields: map<string, Json>, key: string): (r: Result<string>)
    ensures r.Ok? <==> key in fields && fields[key].JString?
    ensures r.Ok? ==> r.value == fields[key].str
    ensures r.Err? ==> r.error.code == InvalidJSONFormat && r.error.message == "Failed to parse template info"
  {
    if key !in fields then Err(ParseFailure("[json.exception.out_of_range.403] key '" + key + "' not found"))
    else GetString(fields[key])
  }

  /** `json.value(key, default)` on an object. */
  function WithDefault(fields: map<string, Json>, key: string, default: string): (r: Result<string>)
    ensures key !in fields ==> r == Ok(default)
    ensures key in fields ==> r == GetString(fields[key])
  {
    if key in fields then GetString(fields[key]) else Ok(default)
  }

  /** `json[key].get<std::string>()` when `json.contains(key)`, nothing otherwise. */
  function Optional(fields: map<string, Json>, key: string): (r: Result<Option<string>>)
    ensures key !in fields ==> r == Ok(None)
    ensures r.Ok? && key in fields ==> fields[key].JString? && r.value == Some(fields[key].str)
    ensures r.Err? <==> key in fields && !fields[key].JString?
    ensures r.Err? ==> r.error.code == InvalidJSONFormat && r.error.message == "Failed to parse template info"
  {
    if key !in fields then Ok(None)
    else
      match GetString(fields[key])
      case Err(e) => Err(e)
      case Ok(s) => Ok(Some(s))
  }

  /** The tags: an array of strings under "tags", or none when "tags" is missing or is not
      an array. */
  function Tags(fields: map<string, Json>): (r: Result<seq<string>>)
    ensures !("tags" in fields && fields["tags"].JArray?) ==> r == Ok([])
    ensures "tags" in fields && fields["tags"].JArray? ==> r == GetStrings(fields["tags"].items)
  {
    if "tags" in fields && fields["tags"].JArray? then GetStrings(fields["tags"].items) else Ok([])
  }

  /** `TemplateInfo::from_json`: the fields in the order the source reads them, the first
      library exception ending it. */
  function FromJson(j: Json): (r: Result<TemplateInfo>)
    ensures r.Err? ==> r.error.code == InvalidJSONFormat && r.error.message == "Failed to parse template info"
  {
    if !j.JObject? then Err(ParseFailure("[json.exception.type_error.304] cannot use at() with " + TypeName(j)))
    else
      var f := j.fields;
      match Required(f, "name")
      case Err(e) => Err(e)
      case Ok(name) =>
      match Required(f, "description")
      case Err(e) => Err(e)
      case Ok(description) =>
      match WithDefault(f, "version", DefaultVersion)
      case Err(e) => Err(e)
      case Ok(version) =>
      match WithDefault(f, "category", DefaultCategory)
      case Err(e) => Err(e)
      case Ok(category) =>
      match Tags(f)
      case Err(e) => Err(e)
      case Ok(tags) =>
      match Optional(f, "author")
      case Err(e) => Err(e)
      case Ok(author) =>
      match Optional(f, "repository")
      case Err(e) => Err(e)
      case Ok(repository) =>
        Ok(TemplateInfo(name, description, version, category, tags, author, repository))
  }

  /** The JSON array of some strings. */
  function StringArray(ss: seq<string>): (j: Json)
    ensures j.JArray? && |j.items| == |ss|
    ensures forall i | 0 <= i < |ss| :: j.items[i] == JString(ss[i])
  {
    if ss == [] then JArray([]) else JArray([JString(ss[0])] + StringArray(ss[1..]).items)
  }

  /** `TemplateInfo::to_json`: the five fields always, author and repository when set. */
  function ToJson(info: TemplateInfo): (j: Json)
    ensures j.JObject?
    ensures "name" in j.fields && "description" in j.fields && "version" in j.fields
    ensures "category" in j.fields && "tags" in j.fields
    ensures "author" in j.fields <==> info.author.Some?
    ensures "repository" in j.fields <==> info.repository.Some?
  {
    var base := map["name" := JString(info.name), "description" := JString(info.description),
                     "version" := JString(info.version), "category" := JString(info.category),
                     "tags" := StringArray(info.tags)];
    var withAuthor := if info.author.Some? then base["author" := JString(info.author.value)] else base;
    JObject(if info.repository.Some? then withAuthor["repository" := JString(info.repository.value)] else withAuthor)
  }

  /** What `from_json` reads from an object: the two required strings, the defaults for a
      missing version or category, the tags only when they are an array, and the author
      and repository exactly when present. */
  lemma FromJsonFields(j: Json)
    ensures (!j.JObject? || "name" !in j.fields || "description" !in j.fields) ==>
      FromJson(j).Err? && FromJson(j).error.code == InvalidJSONFormat
    ensures FromJson(j).Ok? ==>
      var f := j.fields;
      var info := FromJson(j).value;
      j.JObject? && info.name == f["name"].str && info.description == f["description"].str &&
      info.version == (if "version" in f then f["version"].str else DefaultVersion) &&
      info.category == (if "category" in f then f["category"].str else DefaultCategory) &&
      ("tags" !in f || !f["tags"].JArray? ==> info.tags == []) &&
      ("tags" in f && f["tags"].JArray? ==>
        |info.tags| == |f["tags"].items| && forall i | 0 <= i < |info.tags| :: info.tags[i] == f["tags"].items[i].str) &&
      (info.author.Some? <==> "author" in f) && (info.author.Some? ==> info.author.value == f["author"].str) &&
      (info.repository.Some? <==> "repository" in f) && (info.repository.Some? ==> info.repository.value == f["repository"].str)
  {
  }

  /** Reading back what `to_json` wrote gives the same metadata. */
  lemma InfoRoundTrip(info: TemplateInfo)
    ensures FromJson(ToJson(info)) == Ok(info)
  {
    var f := ToJson(info).fields;
    ToJsonLookups(info);
    TagsRoundTrip(info.tags);
    assert Required(f, "name") == Ok(info.name);
    assert Required(f, "description") == Ok(info.description);
    assert WithDefault(f, "version", DefaultVersion) == Ok(info.version);
    assert WithDefault(f, "category", DefaultCategory) == Ok(info.category);
    assert Tags(f) == Ok(info.tags);
    assert Optional(f, "author") == Ok(info.author);
    assert Optional(f, "repository") == Ok(info.repository);
  }

  /** What `to_json` stores under each key. */
  lemma ToJsonLookups(info: TemplateInfo)
    ensures var f := ToJson(info).fields;
      f["name"] == JString(info.name) && f["description"] == JString(info.description) &&
      f["version"] == JString(info.version) && f["category"] == JString(info.category) &&
      f["tags"] == StringArray(info.tags) &&
      (info.author.Some? ==> f["author"] == JString(info.author.value)) &&
      (info.repository.Some? ==> f["repository"] == JString(info.repository.value))
  {
  }

  /** The tags written as an array of strings read back as the same tags. */
  lemma TagsRoundTrip(tags: seq<string>)
    ensures GetStrings(StringArray(tags).items) == Ok(tags)
  {
    var r := GetStrings(StringArray(tags).items);
    assert r.Ok? && r.value == tags;
  }

  // ---------------------------------------------------------------------------
  // Validity

  /** `Template::is_valid`. */
  predicate IsValid(t: Template) {
    t.info.name != "" && t.info.description != "" && t.structure.JObject?
  }

  /** `validate_structure_recursive`: an object whose every value is a string (a file) or,
      again, such an object (a directory). */
  predicate ValidStructure(j: Json)
    decreases j
  {
    j.JObject? && forall k | k in j.fields :: j.fields[k].JString? || ValidStructure(j.fields[k])
  }

  /** `validate_template`: validity first, then the structure. */
  function ValidateTemplate(t: Template): (r: Outcome)
    ensures r.Pass? <==> IsValid(t) && ValidStructure(t.structure)
    ensures !IsValid(t) ==> r == Fail(Failure(TemplateInvalid, "Template is invalid: " + t.info.name))
    ensures IsValid(t) && !ValidStructure(t.structure) ==>
      r == Fail(Failure(InvalidTemplateStructure, "Template structure is invalid: " + t.info.name))
  {
    if !IsValid(t) then Fail(Failure(TemplateInvalid, "Template is invalid: " + t.info.name))
    else if !ValidStructure(t.structure) then Fail(Failure(InvalidTemplateStructure, "Template structure is invalid: " + t.info.name))
    else Pass
  }

  /** A structure that converts back and forth with its tree is a valid structure. */
  lemma {:induction false} CanonicalIsValid(j: Json)
    requires Canonical(j)
    ensures ValidStructure(j)
    decreases j
  {
    forall k | k in j.fields && !j.fields[k].JString? ensures ValidStructure(j.fields[k]) {
      CanonicalIsValid(j.fields[k]);
    }
  }

  /** A template that passes validation has a structure `json_to_node_tree` accepts, and
      every file in its tree gets the string it was given as content. */
  lemma ValidatedTemplateConverts(t: Template, rootName: string)
    requires ValidateTemplate(t).Pass?
    ensures t.structure.JObject?
    ensures var root := StructureTree(t.structure, rootName);
      forall i | 0 <= i < |root.children| && root.children[i].kind == File ::
        var v := t.structure.fields[Keys(t.structure)[i]];
        v.JString? && root.children[i].content == (if v.str == "" then None else Some(v.str))
  {
    var root := StructureTree(t.structure, rootName);
    var keys := Keys(t.structure);
    forall i | 0 <= i < |root.children| && root.children[i].kind == File
      ensures var v := t.structure.fields[keys[i]];
        v.JString? && root.children[i].content == (if v.str == "" then None else Some(v.str))
    {
      assert keys[i] in t.structure.fields;
      var v := t.structure.fields[keys[i]];
      assert root.children[i] == MemberNode(keys[i], v);
      assert v.JString? || ValidStructure(v);
    }
  }

  // ---------------------------------------------------------------------------
  // The catalogue

  /** The map `scan_directory` builds from the templates it loads, in the order it loads
      them: each under its own name, a later one replacing an earlier one of that name. */
  function Catalogue(loaded: seq<Template>): map<string, Template> {
    if loaded == [] then map[]
    else
      var last := loaded[|loaded| - 1];
      Catalogue(loaded[..|loaded| - 1])[last.info.name := last]
  }

  /** The catalogue holds exactly the loaded names, each with the last template loaded
      under it. */
  lemma CatalogueSpec(loaded: seq<Template>)
    ensures forall n :: n in Catalogue(loaded) <==> exists i | 0 <= i < |loaded| :: loaded[i].info.name == n
    ensures forall n | n in Catalogue(loaded) :: Catalogue(loaded)[n].info.name == n
    ensures forall n | n in Catalogue(loaded) :: exists i | 0 <= i < |loaded| ::
      Catalogue(loaded)[n] == loaded[i] && forall j | i < j < |loaded| :: loaded[j].info.name != n
  {
    forall n ensures n in Catalogue(loaded) <==> exists i | 0 <= i < |loaded| :: loaded[i].info.name == n {
      CatalogueKeys(loaded, n);
    }
    forall n | n in Catalogue(loaded) ensures exists i | 0 <= i < |loaded| ::
      Catalogue(loaded)[n] == loaded[i] && forall j | i < j < |loaded| :: loaded[j].info.name != n
    {
      CatalogueLast(loaded, n);
    }
    CatalogueNames(loaded);
  }

  lemma {:induction false} CatalogueKeys(loaded: seq<Template>, n: string)
    ensures n in Catalogue(loaded) <==> exists i | 0 <= i < |loaded| :: loaded[i].info.name == n
  {
    if loaded != [] {
      var m := |loaded| - 1;
      var init := loaded[..m];
      CatalogueKeys(init, n);
      if exists i | 0 <= i < |loaded| :: loaded[i].info.name == n {
        var i :| 0 <= i < |loaded| && loaded[i].info.name == n;
        if i < m {
          assert init[i] == loaded[i];
        }
      }
      if n in Catalogue(init) {
        var i :| 0 <= i < m && init[i].info.name == n;
        assert loaded[i] == init[i];
      }
    }
  }

  lemma {:induction false} CatalogueNames(loaded: seq<Template>)
    ensures forall n | n in Catalogue(loaded) :: Catalogue(loaded)[n].info.name == n
  {
    if loaded != [] {
      CatalogueNames(loaded[..|loaded| - 1]);
    }
  }

  lemma {:induction false} CatalogueLast(loaded: seq<Template>, n: string)
    requires n in Catalogue(loaded)
    ensures exists i | 0 <= i < |loaded| ::
      Catalogue(loaded)[n] == loaded[i] && forall j | i < j < |loaded| :: loaded[j].info.name != n
  {
    var m := |loaded| - 1;
    var init := loaded[..m];
    if n == loaded[m].info.name {
      assert Catalogue(loaded)[n] == loaded[m];
    } else {
      CatalogueLast(init, n);
      var i :| 0 <= i < m && Catalogue(init)[n] == init[i] && forall j | i < j < m :: init[j].info.name != n;
      assert loaded[i] == init[i];
      forall j | i < j < |loaded| ensures loaded[j].info.name != n {
        if j < m {
          assert loaded[j] == init[j];
        }
      }
    }
  }

  /** What a query selects: the templates of one category, or those whose name or
      description contains the query text, ignoring case. */
  datatype Filter = InCategory(category: string) | Matching(query: string)

  predicate Selects(f: Filter, info: TemplateInfo) {
    match f
    case InCategory(c) => info.category == c
    case Matching(q) =>
      Contains(ToLower(info.name), ToLower(q)) || Contains(ToLower(info.description), ToLower(q))
  }

  /** The metadata of the template named `n` when `f` selects it. */
  function Picked(ts: map<string, Template>, n: string, f: Filter): seq<TemplateInfo> {
    if n in ts && Selects(f, ts[n].info) then [ts[n].info] else []
  }

  /** The metadata of the templates named by `names` that `f` selects, in that order. */
  function Selection(ts: map<string, Template>, names: seq<string>, f: Filter): seq<TemplateInfo> {
    if names == [] then []
    else Selection(ts, names[..|names| - 1], f) + Picked(ts, names[|names| - 1], f)
  }

  /** A selection holds exactly the selected metadata of the named templates. */
  lemma SelectionMembers(ts: map<string, Template>, names: seq<string>, f: Filter)
    requires forall n | n in names :: n in ts
    ensures forall x :: x in Selection(ts, names, f) <==>
      Selects(f, x) && exists i | 0 <= i < |names| :: ts[names[i]].info == x
  {
    forall x ensures x in Selection(ts, names, f) <==> Selects(f, x) && exists i | 0 <= i < |names| :: ts[names[i]].info == x {
      SelectionMember(ts, names, f, x);
    }
  }

  lemma SelectionMember(ts: map<string, Template>, names: seq<string>, f: Filter, x: TemplateInfo)
    requires forall n | n in names :: n in ts
    ensures x in Selection(ts, names, f) <==> Selects(f, x) && exists i | 0 <= i < |names| :: ts[names[i]].info == x
  {
    if x in Selection(ts, names, f) {
      SelectionSound(ts, names, f, x);
    }
    if Selects(f, x) && exists i | 0 <= i < |names| :: ts[names[i]].info == x {
      var i :| 0 <= i < |names| && ts[names[i]].info == x;
      SelectionComplete(ts, names, f, i);
    }
  }

  /** Whatever is selected is the selected metadata of a named template. */
  lemma {:induction false} SelectionSound(ts: map<string, Template>, names: seq<string>, f: Filter, x: TemplateInfo)
    requires x in Selection(ts, names, f)
    ensures Selects(f, x) && exists i | 0 <= i < |names| :: names[i] in ts && ts[names[i]].info == x
  {
    var m := |names| - 1;
    var init := names[..m];
    if x in Selection(ts, init, f) {
      SelectionSound(ts, init, f, x);
      var i :| 0 <= i < m && init[i] in ts && ts[init[i]].info == x;
      assert names[i] == init[i];
    } else {
      assert names[m] in ts && ts[names[m]].info == x;
    }
  }

  /** The metadata of every named template that the filter selects is selected. */
  lemma {:induction false} SelectionComplete(ts: map<string, Template>, names: seq<string>, f: Filter, i: nat)
    requires i < |names| && names[i] in ts && Selects(f, ts[names[i]].info)
    ensures ts[names[i]].info in Selection(ts, names, f)
  {
    var m := |names| - 1;
    var init := names[..m];
    assert Selection(ts, names, f) == Selection(ts, init, f) + Picked(ts, names[m], f);
    if i < m {
      assert init[i] == names[i];
      SelectionComplete(ts, init, f, i);
    } else {
      assert Picked(ts, names[m], f) == [ts[names[i]].info];
    }
  }

  /** Every text contains the empty query, so an empty search selects every template. */
  lemma {:induction false} EmptyQuerySelectsAll(ts: map<string, Template>, names: seq<string>)
    requires forall n | n in names :: n in ts
    ensures |Selection(ts, names, Matching(""))| == |names|
  {
    if names != [] {
      var last := names[|names| - 1];
      assert OccursAt(ToLower(ts[last].info.name), ToLower(""), 0);
      EmptyQuerySelectsAll(ts, names[..|names| - 1]);
    }
  }

  /** Appending the next name to a selection. */
  lemma SelectionAppend(ts: map<string, Template>, names: seq<string>, i: nat, f: Filter)
    requires i < |names| && forall n | n in names :: n in ts
    ensures Selection(ts, names[..i + 1], f) ==
      Selection(ts, names[..i], f) + (if Selects(f, ts[names[i]].info) then [ts[names[i]].info] else [])
  {
    assert names[..i + 1][..i] == names[..i];
  }

  /** The categories of the templates named by `names`. */
  function CategoriesOf(ts: map<string, Template>, names: seq<string>): set<string> {
    if names == [] then {}
    else
      var last := names[|names| - 1];
      CategoriesOf(ts, names[..|names| - 1]) + (if last in ts then {ts[last].info.category} else {})
  }

  /** The categories of some stored names are the categories of the templates stored
      under them. */
  lemma {:induction false} CategoriesOfMembers(ts: map<string, Template>, names: seq<string>)
    ensures forall c :: c in CategoriesOf(ts, names) <==>
      exists i | 0 <= i < |names| :: names[i] in ts && ts[names[i]].info.category == c
  {
    if names != [] {
      var m := |names| - 1;
      var init := names[..m];
      CategoriesOfMembers(ts, init);
      forall c ensures c in CategoriesOf(ts, names) <==>
        exists i | 0 <= i < |names| :: names[i] in ts && ts[names[i]].info.category == c
      {
        if exists i | 0 <= i < |names| :: names[i] in ts && ts[names[i]].info.category == c {
          var i :| 0 <= i < |names| && names[i] in ts && ts[names[i]].info.category == c;
          if i < m {
            assert init[i] == names[i];
          }
        }
        if c in CategoriesOf(ts, init) {
          var i :| 0 <= i < m && init[i] in ts && ts[init[i]].info.category == c;
          assert names[i] == init[i];
        }
      }
    }
  }

  lemma CategoriesOfAppend(ts: map<string, Template>, names: seq<string>, i: nat)
    requires i < |names| && names[i] in ts
    ensures CategoriesOf(ts, names[..i + 1]) == CategoriesOf(ts, names[..i]) + {ts[names[i]].info.category}
  {
    assert names[..i + 1][..i] == names[..i];
  }

  /** Over all the stored names, the categories are those of all stored templates. */
  lemma CategoriesOfAll(ts: map<string, Template>, names: seq<string>)
    requires forall n :: n in names <==> n in ts
    ensures forall c :: c in CategoriesOf(ts, names) <==> exists n | n in ts :: ts[n].info.category == c
  {
    CategoriesOfMembers(ts, names);
    forall n | n in ts
      ensures exists i | 0 <= i < |names| :: names[i] in ts && ts[names[i]].info.category == ts[n].info.category
    {
      assert n in names;
      var i :| 0 <= i < |names| && names[i] == n;
    }
  }

  /** `validate_all_templates` over the names in the order given (a name with nothing
      stored under it is passed over): the first failure, or success. */
  function ValidateAll(ts: map<string, Template>, names: seq<string>): Outcome {
    if names == [] then Pass
    else if names[0] !in ts then ValidateAll(ts, names[1..])
    else
      var r := ValidateTemplate(ts[names[0]]);
      if r.Fail? then r else ValidateAll(ts, names[1..])
  }

  /** Validating all passes exactly when every named template validates. */
  lemma {:induction false} ValidateAllPass(ts: map<string, Template>, names: seq<string>)
    requires forall n | n in names :: n in ts
    ensures ValidateAll(ts, names).Pass? <==> forall i | 0 <= i < |names| :: ValidateTemplate(ts[names[i]]).Pass?
  {
    if names != [] {
      var rest := names[1..];
      ValidateAllPass(ts, rest);
      assert forall i | 1 <= i < |names| :: names[i] == rest[i - 1];
    }
  }

  /** A failure is the failure of the first named template that does not validate. */
  lemma {:induction false} ValidateAllFirst(ts: map<string, Template>, names: seq<string>)
    requires forall n | n in names :: n in ts
    requires ValidateAll(ts, names).Fail?
    ensures exists i | 0 <= i < |names| ::
      ValidateAll(ts, names) == ValidateTemplate(ts[names[i]]) &&
      forall j | 0 <= j < i :: ValidateTemplate(ts[names[j]]).Pass?
  {
    if ValidateTemplate(ts[names[0]]).Fail? {
      assert ValidateAll(ts, names) == ValidateTemplate(ts[names[0]]);
    } else {
      var rest := names[1..];
      ValidateAllFirst(ts, rest);
      var i :| 0 <= i < |rest| && ValidateAll(ts, rest) == ValidateTemplate(ts[rest[i]]) &&
        forall j | 0 <= j < i :: ValidateTemplate(ts[rest[j]]).Pass?;
      assert names[i + 1] == rest[i];
      forall j | 0 <= j < i + 1 ensures ValidateTemplate(ts[names[j]]).Pass? {
        if j > 0 {
          assert names[j] == rest[j - 1];
        }
      }
    }
  }

  /** `order` lists every stored name exactly once: an iteration order of the stored map,
      which the source's container type decides and this model leaves open. */
  predicate Enumerates(order: seq<string>, ts: map<string, Template>) {
    (forall n | n in order :: n in ts) && (forall n | n in ts :: n in order) &&
    forall i, j | 0 <= i < j < |order| :: order[i] != order[j]
  }

  /** Over all stored names, in any order, validating all passes exactly when every stored
      template validates, and otherwise reports the failure of a stored template. */
  lemma ValidateAllStored(ts: map<string, Template>, order: seq<string>)
    requires forall n :: n in order <==> n in ts
    ensures ValidateAll(ts, order).Pass? <==> forall n | n in ts :: ValidateTemplate(ts[n]).Pass?
    ensures ValidateAll(ts, order).Fail? ==> exists n | n in ts :: ValidateAll(ts, order) == ValidateTemplate(ts[n])
  {
    StoredPass(ts, order);
    if ValidateAll(ts, order).Fail? {
      StoredFailure(ts, order);
    }
  }

  lemma StoredPass(ts: map<string, Template>, order: seq<string>)
    requires forall n :: n in order <==> n in ts
    ensures ValidateAll(ts, order).Pass? <==> forall n | n in ts :: ValidateTemplate(ts[n]).Pass?
  {
    ValidateAllPass(ts, order);
    if ValidateAll(ts, order).Pass? {
      forall n | n in ts ensures ValidateTemplate(ts[n]).Pass? {
        assert n in order;
        var i :| 0 <= i < |order| && order[i] == n;
      }
    }
  }

  lemma StoredFailure(ts: map<string, Template>, order: seq<string>)
    requires forall n :: n in order <==> n in ts
    requires ValidateAll(ts, order).Fail?
    ensures exists n | n in ts :: ValidateAll(ts, order) == ValidateTemplate(ts[n])
  {
    ValidateAllFirst(ts, order);
    var i :| 0 <= i < |order| && ValidateAll(ts, order) == ValidateTemplate(ts[order[i]]) &&
      forall j | 0 <= j < i :: ValidateTemplate(ts[order[j]]).Pass?;
    assert order[i] in ts;
  }

  /** Over all stored names, in any order, a selection holds exactly the selected metadata
      of stored templates. */
  lemma SelectionOfStored(ts: map<string, Template>, order: seq<string>, f: Filter)
    requires forall n :: n in order <==> n in ts
    ensures forall x :: x in Selection(ts, order, f) <==> Selects(f, x) && exists n | n in ts :: ts[n].info == x
  {
    SelectionMembers(ts, order, f);
    forall x | Selects(f, x) && exists n | n in ts :: ts[n].info == x
      ensures exists i | 0 <= i < |order| :: ts[order[i]].info == x
    {
      var n :| n in ts && ts[n].info == x;
      assert n in order;
      var i :| 0 <= i < |order| && order[i] == n;
    }
  }

  /** Two iteration orders of the same names select the same metadata, each as often:
      the selections differ at most in their order. */
  lemma {:induction false} SelectionOrderFree(ts: map<string, Template>, o1: seq<string>, o2: seq<string>, f: Filter)
    requires multiset(o1) == multiset(o2)
    ensures multiset(Selection(ts, o1, f)) == multiset(Selection(ts, o2, f))
    decreases |o1|
  {
    if o1 == [] {
      assert o2 == [] by {
        assert |multiset(o2)| == 0;
      }
    } else {
      var m := |o1| - 1;
      var x := o1[m];
      var k := IndexOf(o1, o2, x);
      var u, v := o2[..k], o2[k + 1..];
      RemoveOne(o1, o2, k);
      SelectionOrderFree(ts, o1[..m], u + v, f);
      var su, sv, t := Selection(ts, u, f), Selection(ts, v, f), Picked(ts, x, f);
      assert multiset(Selection(ts, o1, f)) == multiset(su + sv) + multiset(t) by {
        SelectionConcat(ts, u, v, f);
        assert Selection(ts, o1, f) == Selection(ts, o1[..m], f) + t;
      }
      assert multiset(Selection(ts, o2, f)) == multiset(su) + multiset(t) + multiset(sv) by {
        SelectionAround(ts, o2, k, f);
      }
    }
  }

  /** A position of the last name of `o1` in a list with the same names. */
  lemma IndexOf(o1: seq<string>, o2: seq<string>, x: string) returns (k: nat)
    requires o1 != [] && multiset(o1) == multiset(o2) && x == o1[|o1| - 1]
    ensures k < |o2| && o2[k] == x
  {
    assert x in multiset(o1);
    assert x in o2;
    k :| 0 <= k < |o2| && o2[k] == x;
  }

  /** The selection over names split around position `k`. */
  lemma SelectionAround(ts: map<string, Template>, o: seq<string>, k: nat, f: Filter)
    requires k < |o|
    ensures Selection(ts, o, f) == Selection(ts, o[..k], f) + Picked(ts, o[k], f) + Selection(ts, o[k + 1..], f)
  {
    var u, x, v := o[..k], o[k], o[k + 1..];
    assert o == (u + [x]) + v;
    assert Selection(ts, [x], f) == Picked(ts, x, f) by {
      assert [x][..0] == [];
    }
    SelectionConcat(ts, u + [x], v, f);
    SelectionConcat(ts, u, [x], f);
  }

  /** Taking the last name off one list and the same name off another with the same
      names leaves two lists with the same names. */
  lemma RemoveOne(o1: seq<string>, o2: seq<string>, k: nat)
    requires o1 != [] && multiset(o1) == multiset(o2) && k < |o2| && o2[k] == o1[|o1| - 1]
    ensures multiset(o1[..|o1| - 1]) == multiset(o2[..k] + o2[k + 1..])
  {
    var m, x := |o1| - 1, o1[|o1| - 1];
    assert o1 == o1[..m] + [x];
    assert o2 == o2[..k] + [x] + o2[k + 1..];
    var a, b, c := multiset(o1[..m]), multiset(o2[..k]), multiset(o2[k + 1..]);
    assert a + multiset{x} == b + multiset{x} + c;
    assert multiset(o2[..k] + o2[k + 1..]) == b + c;
    forall y ensures a[y] == (b + c)[y] {
      assert (a + multiset{x})[y] == (b + multiset{x} + c)[y];
    }
  }

  /** A selection over two runs of names is the selection over each, one after the other. */
  lemma {:induction false} SelectionConcat(ts: map<string, Template>, a: seq<string>, b: seq<string>, f: Filter)
    ensures Selection(ts, a + b, f) == Selection(ts, a, f) + Selection(ts, b, f)
    decreases |b|
  {
    if b == [] {
      assert a + b == a;
    } else {
      var m := |b| - 1;
      assert (a + b)[..|a + b| - 1] == a + b[..m];
      SelectionConcat(ts, a, b[..m], f);
      ConcatAssoc(Selection(ts, a, f), Selection(ts, b[..m], f), Picked(ts, b[m], f));
    }
  }

  /** Any two iteration orders of the stored names hold the same names, each once. */
  lemma EnumerationsArePermutations(ts: map<string, Template>, o1: seq<string>, o2: seq<string>)
    requires Enumerates(o1, ts) && Enumerates(o2, ts)
    ensures multiset(o1) == multiset(o2)
  {
    forall n ensures multiset(o1)[n] == multiset(o2)[n] {
      DistinctCount(o1, n);
      DistinctCount(o2, n);
    }
  }

  /** The queries over two iteration orders of the stored map give the same metadata, each
      as often. */
  lemma StoredSelectionOrderFree(ts: map<string, Template>, o1: seq<string>, o2: seq<string>, f: Filter)
    requires Enumerates(o1, ts) && Enumerates(o2, ts)
    ensures multiset(Selection(ts, o1, f)) == multiset(Selection(ts, o2, f))
  {
    EnumerationsArePermutations(ts, o1, o2);
    SelectionOrderFree(ts, o1, o2, f);
  }

  /** In a list without repetitions a name occurs once if at all. */
  lemma {:induction false} DistinctCount(o: seq<string>, n: string)
    requires forall i, j | 0 <= i < j < |o| :: o[i] != o[j]
    ensures multiset(o)[n] == if n in o then 1 else 0
  {
    if o != [] {
      var m := |o| - 1;
      assert o == o[..m] + [o[m]];
      DistinctCount(o[..m], n);
      if o[m] == n {
        assert n !in o[..m];
      }
    }
  }

  /** `TemplateManager`. */
  class TemplateManager {
    const templatesDir: string
    var templates: map<string, Template>
    var initialized: bool

    constructor (templatesDir: string)
      ensures this.templatesDir == templatesDir && templates == map[] && !initialized
    {
      this.templatesDir := templatesDir;
      templates := map[];
      initialized := false;
    }

    /** `initialize`: refuses a missing templates directory, otherwise loads. */
    method Initialize(dirExists: bool, loaded: seq<Template>) returns (r: Outcome)
      modifies this
      ensures !dirExists ==>
        r == Fail(Failure(DirectoryNotFound, "Templates directory not found: " + templatesDir)) &&
        templates == old(templates) && initialized == old(initialized)
      ensures dirExists ==> r == Pass && templates == Catalogue(loaded) && initialized
    {
      if !dirExists {
        return Fail(Failure(DirectoryNotFound, "Templates directory not found: " + templatesDir));
      }
      LoadTemplates(loaded);
      r := Pass;
    }

    /** `load_templates`: empties the map and fills it with the templates the scan loads,
        `loaded` being those that loaded without error, in the order they were found. */
    method LoadTemplates(loaded: seq<Template>)
      modifies this
      ensures templates == Catalogue(loaded) && initialized
    {
      templates := map[];
      for i := 0 to |loaded|
        invariant templates == Catalogue(loaded[..i])
      {
        assert loaded[..i + 1][..i] == loaded[..i];
        templates := templates[loaded[i].info.name := loaded[i]];
      }
      assert loaded[..|loaded|] == loaded;
      initialized := true;
    }

    /** `list_templates`: every stored name once, ascending. */
    method ListTemplates() returns (names: seq<string>)
      ensures StrictlySorted(names)
      ensures forall n :: n in names <==> n in templates
    {
      var keys := SortedElements(templates.Keys);
      names := [];
      for i := 0 to |keys|
        invariant names == keys[..i]
      {
        names := names + [keys[i]];
      }
      assert keys[..|keys|] == keys;
      SortOfSortedSet(templates.Keys);
      names := Sort(names);
    }

    /** `list_categories`: each category of a stored template once, ascending. */
    method ListCategories() returns (categories: seq<string>)
      ensures StrictlySorted(categories)
      ensures forall c :: c in categories <==> exists n | n in templates :: templates[n].info.category == c
    {
      var found := CollectCategories();
      categories := SortedElements(found);
      SortOfSortedSet(found);
      categories := Sort(categories);
    }

    /** The loop of `list_categories`: the categories of the stored templates, gathered
        into a set (walked here in key order; the set does not depend on the order). */
    method CollectCategories() returns (found: set<string>)
      ensures forall c :: c in found <==> exists n | n in templates :: templates[n].info.category == c
    {
      var keys := SortedElements(templates.Keys);
      SortedSetMembers(templates.Keys);
      found := {};
      assert forall n :: n in keys <==> n in templates;
      for i := 0 to |keys|
        invariant found == CategoriesOf(templates, keys[..i])
      {
        assert keys[i] in templates;
        CategoriesOfAppend(templates, keys, i);
        found := found + {templates[keys[i]].info.category};
      }
      assert keys[..|keys|] == keys;
      CategoriesOfAll(templates, keys);
    }

    /** `list_templates_in_category`: the metadata of the templates of that category, in
        the iteration order `order` of the stored map. */
    method ListTemplatesInCategory(category: string, order: seq<string>) returns (infos: seq<TemplateInfo>)
      requires Enumerates(order, templates)
      ensures infos == Selection(templates, order, InCategory(category))
      ensures forall x :: x in infos <==> x.category == category && exists n | n in templates :: templates[n].info == x
    {
      infos := Select(InCategory(category), order);
    }

    /** `search_templates`: the metadata of the templates whose lower-cased name or
        description contains the lower-cased query, in the iteration order `order`. */
    method SearchTemplates(query: string, order: seq<string>) returns (infos: seq<TemplateInfo>)
      requires Enumerates(order, templates)
      ensures infos == Selection(templates, order, Matching(query))
      ensures forall x :: x in infos <==> Selects(Matching(query), x) && exists n | n in templates :: templates[n].info == x
    {
      infos := Select(Matching(query), order);
    }

    /** The loop both queries share: the stored templates in the iteration order `order`,
        keeping the selected ones. */
    method Select(f: Filter, order: seq<string>) returns (infos: seq<TemplateInfo>)
      requires Enumerates(order, templates)
      ensures infos == Selection(templates, order, f)
      ensures forall x :: x in infos <==> Selects(f, x) && exists n | n in templates :: templates[n].info == x
    {
      infos := [];
      for i := 0 to |order|
        invariant infos == Selection(templates, order[..i], f)
      {
        assert order[i] in order;
        SelectionAppend(templates, order, i, f);
        var info := templates[order[i]].info;
        if Selects(f, info) {
          infos := infos + [info];
        }
      }
      assert order[..|order|] == order;
      SelectionOfStored(templates, order, f);
    }

    /** `get_template`. */
    function GetTemplate(name: string): (r: Result<Template>)
      reads this
      ensures r.Ok? <==> name in templates
      ensures r.Ok? ==> r.value == templates[name]
      ensures r.Err? ==> r.error == Failure(TemplateNotFound, "Template not found: " + name)
    {
      if name !in templates then Err(Failure(TemplateNotFound, "Template not found: " + name)) else Ok(templates[name])
    }

    /** `get_template_info`. */
    function GetTemplateInfo(name: string): (r: Result<TemplateInfo>)
      reads this
      ensures r.Ok? <==> GetTemplate(name).Ok?
      ensures r.Ok? ==> r.value == templates[name].info
      ensures r.Err? ==> r.error.code == TemplateNotFound
    {
      match GetTemplate(name)
      case Err(e) => Err(e)
      case Ok(t) => Ok(t.info)
    }

    /** `has_template`. */
    predicate HasTemplate(name: string)
      reads this
    {
      name in templates
    }

    /** `validate_all_templates`: the first template, in the iteration order `order`,
        that fails validation gives its error; which one that is depends on the order, that
        some template fails does not. */
    method ValidateAllTemplates(order: seq<string>) returns (r: Outcome)
      requires Enumerates(order, templates)
      ensures r == ValidateAll(templates, order)
      ensures r.Pass? <==> forall n | n in templates :: ValidateTemplate(templates[n]).Pass?
      ensures r.Fail? ==> exists n | n in templates :: r == ValidateTemplate(templates[n])
    {
      for i := 0 to |order|
        invariant ValidateAll(templates, order[i..]) == ValidateAll(templates, order)
      {
        assert order[i] in order;
        assert order[i..][0] == order[i] && order[i..][1..] == order[i + 1..];
        var result := ValidateTemplate(templates[order[i]]);
        if result.Fail? {
          ValidateAllStored(templates, order);
          return result;
        }
      }
      r := Pass;
      ValidateAllStored(templates, order);
    }

    /** `generate_from_template`: an unknown name gives `TemplateNotFound`, a template that
        fails validation its validation error, and nothing is written in either case;
        otherwise its structure is generated as `generate_from_json` does. */
    method GenerateFromTemplate(templateName: string, topts: TemplateOptions, disk: Disk, elapsedMs: nat)
        returns (r: Reply, notices: seq<Notice>)
      modifies disk
      ensures templateName !in templates ==>
        r == Failed(Failure(TemplateNotFound, "Template not found: " + templateName)) && disk.entries == old(disk.entries)
      ensures templateName in templates && ValidateTemplate(templates[templateName]).Fail? ==>
        r == Failed(ValidateTemplate(templates[templateName]).error) && disk.entries == old(disk.entries)
      ensures templateName in templates && ValidateTemplate(templates[templateName]).Pass? ==>
        var (st, reply) := GenerateSpec(GeneratorOptions(topts), disk.readOnly, State(old(disk.entries), NoStats, [], 0),
                                        StructureTree(templates[templateName].structure, topts.projectName),
                                        topts.outputDir, elapsedMs);
        r == reply && disk.entries == st.entries && notices == st.notices
    {
      var found := GetTemplate(templateName);
      if found.Err? {
        return Failed(found.error), [];
      }
      var validation := ValidateTemplate(found.value);
      if validation.Fail? {
        return Failed(validation.error), [];
      }
      r, notices := GenerateFromJson(found.value.structure, topts, disk, elapsedMs);
    }
  }

  /** `has_template(n)` holds exactly when `get_template(n)` finds a template, and then
      the template is stored under that very name when the map was filled by loading. */
  lemma HasTemplateIffFound(m: TemplateManager, name: string, loaded: seq<Template>)
    requires m.templates == Catalogue(loaded)
    ensures m.HasTemplate(name) <==> m.GetTemplate(name).Ok?
    ensures m.HasTemplate(name) ==> m.GetTemplate(name).value.info.name == name
    ensures !m.HasTemplate(name) ==> m.GetTemplate(name).error.code == TemplateNotFound
  {
    CatalogueSpec(loaded);
  }
}
