/** JSON values as the template code sees them (nlohmann::json), and the conversion of a
    template structure into a tree (`TemplateGenerator::json_to_node_tree` and
    `json_to_node_recursive` in src/core/generator.cpp). An object keeps its members in a
    `std::map`, so they are visited in ascending key order. */
module Json {
  import opened Wrappers
  import opened Errors
  import opened Strings
  import opened Nodes

  datatype Json =
    | JNull
    | JBool(b: bool)
    | JNumber(num: int)
    | JString(str: string)
    | JArray(items: seq<Json>)
    | JObject(fields: map<string, Json>)

  /** The keys of an object, in iteration order. */
  ghost function Keys(obj: Json): (keys: seq<string>)
    requires obj.JObject?
    ensures StrictlySorted(keys)
    ensures forall k :: k in keys <==> k in obj.fields
  {
    SortedSetSpec(obj.fields.Keys);
    SortedSet(obj.fields.Keys)
  }

  /** `name.back() == '/'`. For an empty key the source reads before the string, which is
      undefined; the model treats it as not ending in '/'. */
  predicate EndsWithSlash(key: string) {
    key != [] && key[|key| - 1] == '/'
  }

  function StripSlash(key: string): (name: string)
    ensures EndsWithSlash(key) ==> key == name + "/"
    ensures !EndsWithSlash(key) ==> name == key
  {
    if EndsWithSlash(key) then key[..|key| - 1] else key
  }

  /** The node one object member becomes: a directory when the key ends in '/' or the
      value is an object (with the slash dropped, and the object's members as children);
      otherwise a file whose content is the value when that is a non-empty string. */
  ghost function MemberNode(key: string, value: Json): (n: Node)
    ensures n.name == StripSlash(key)
    ensures n.kind == Directory <==> EndsWithSlash(key) || value.JObject?
    ensures n.kind == File ==>
      (n.children == [] && n.content == (if value.JString? && value.str != "" then Some(value.str) else None))
    ensures n.kind == Directory ==> n.content == None && (!value.JObject? ==> n.children == [])
    decreases value, 1
  {
    var name := StripSlash(key);
    if value.JObject? then
      Node(Directory, name, None, MemberNodes(value, Keys(value)))
    else if EndsWithSlash(key) then
      Node(Directory, name, None, [])
    else
      Node(File, name, if value.JString? && value.str != "" then Some(value.str) else None, [])
  }

  /** The nodes of the members named by `keys`, in that order. */
  ghost function MemberNodes(obj: Json, keys: seq<string>): (cs: seq<Node>)
    requires obj.JObject? && forall k | k in keys :: k in obj.fields
    ensures |cs| == |keys|
    ensures forall i | 0 <= i < |keys| :: cs[i] == MemberNode(keys[i], obj.fields[keys[i]])
    decreases obj, 0, |keys|
  {
    if keys == [] then []
    else
      var last := keys[|keys| - 1];
      MemberNodes(obj, keys[..|keys| - 1]) + [MemberNode(last, obj.fields[last])]
  }

  /** The tree of a template structure: a directory named `rootName` whose children are
      the object's members in key order. */
  ghost function StructureTree(obj: Json, rootName: string): (root: Node)
    requires obj.JObject?
    ensures root.kind == Directory && root.name == rootName && root.content == None
    ensures |root.children| == |obj.fields|
  {
    Node(Directory, rootName, None, MemberNodes(obj, Keys(obj)))
  }

  /** `json_to_node_recursive`: appends one child to `parent` per member of `obj`, in key
      order, descending into object values. */
  method JsonToNodeRecursive(obj: Json, parent: Node) returns (result: Node)
    requires obj.JObject?
    ensures result == parent.(children := parent.children + MemberNodes(obj, Keys(obj)))
    decreases obj, 0
  {
    var keys := SortedElements(obj.fields.Keys);
    assert keys == Keys(obj);
    result := parent;
    for i := 0 to |keys|
      invariant result == parent.(children := parent.children + MemberNodes(obj, keys[..i]))
    {
      var key := keys[i];
      var child := MemberToNode(key, obj.fields[key]);
      ghost var before := result;
      result := AddChild(result, child);
      AddMemberStep(obj, keys, i, parent, before, result);
    }
    assert keys[..|keys|] == keys;
  }

  /** One turn of the loop in `json_to_node_recursive` appends the next member's node. */
  lemma AddMemberStep(obj: Json, keys: seq<string>, i: nat, parent: Node, before: Node, after: Node)
    requires obj.JObject? && i < |keys| && forall k | k in keys :: k in obj.fields
    requires before == parent.(children := parent.children + MemberNodes(obj, keys[..i]))
    requires after == AddChild(before, MemberNode(keys[i], obj.fields[keys[i]]))
    ensures after == parent.(children := parent.children + MemberNodes(obj, keys[..i + 1]))
  {
    var child := MemberNode(keys[i], obj.fields[keys[i]]);
    assert after.children == before.children + [child];
    MemberNodesAppend(obj, keys, i);
    ConcatAssoc(parent.children, MemberNodes(obj, keys[..i]), [child]);
  }

  lemma {:induction false} MemberNodesAppend(obj: Json, keys: seq<string>, i: nat)
    requires obj.JObject? && i < |keys| && forall k | k in keys :: k in obj.fields
    ensures MemberNodes(obj, keys[..i + 1]) == MemberNodes(obj, keys[..i]) + [MemberNode(keys[i], obj.fields[keys[i]])]
  {
    assert keys[..i + 1][..i] == keys[..i];
  }

  /** The body of the loop in `json_to_node_recursive`: the node for one member. */
  method MemberToNode(key: string, value: Json) returns (child: Node)
    ensures child == MemberNode(key, value)
    decreases value, 1
  {
    var name := key;
    var isDirectory := (name != [] && name[|name| - 1] == '/') || value.JObject?;
    if name != [] && name[|name| - 1] == '/' {
      name := name[..|name| - 1];
    }
    if isDirectory {
      child := MakeNode(Directory, name);
      if value.JObject? {
        child := JsonToNodeRecursive(value, child);
      }
    } else {
      child := MakeNode(File, name);
      if value.JString? && value.str != "" {
        child := child.(content := Some(value.str));
      }
    }
  }

  /** `json_to_node_tree`: refuses anything but an object, otherwise builds the tree. */
  method JsonToNodeTree(obj: Json, rootName: string) returns (r: Result<Node>)
    ensures !obj.JObject? ==> r == Err(Failure(InvalidJSONFormat, "Template structure must be a JSON object"))
    ensures obj.JObject? ==> r == Ok(StructureTree(obj, rootName))
  {
    if !obj.JObject? {
      return Err(Failure(InvalidJSONFormat, "Template structure must be a JSON object"));
    }
    var root := MakeNode(Directory, rootName);
    root := JsonToNodeRecursive(obj, root);
    assert [] + MemberNodes(obj, Keys(obj)) == MemberNodes(obj, Keys(obj));
    r := Ok(root);
  }

  // ---------------------------------------------------------------------------
  // Back from a tree to a structure

  /** The JSON value a node stands for: a directory is an object of its children, a file
      the string of its content. */
  function NodeValue(n: Node): Json
    decreases n, 1
  {
    if n.kind == Directory then JObject(ForestMembers(n.children)) else JString(n.content.GetOr(""))
  }

  /** The members for a list of children, a later child winning over an earlier one of the
      same name. */
  function ForestMembers(cs: seq<Node>): map<string, Json>
    decreases cs, 0
  {
    if cs == [] then map[]
    else ForestMembers(cs[..|cs| - 1])[cs[|cs| - 1].name := NodeValue(cs[|cs| - 1])]
  }

  /** A structure whose keys do not end in '/' and whose values are strings or, again,
      such structures. */
  predicate Canonical(j: Json)
    decreases j
  {
    j.JObject? &&
    forall k | k in j.fields ::
      !EndsWithSlash(k) && (j.fields[k].JString? || Canonical(j.fields[k]))
  }

  /** Converting a canonical structure to a tree and back gives the structure again: every
      key becomes a node of that name, every string the content of its file (the empty
      string an empty file), every object a directory. */
  lemma {:induction false} StructureRoundTrip(obj: Json, rootName: string)
    requires Canonical(obj)
    ensures NodeValue(StructureTree(obj, rootName)) == obj
  {
    var t := StructureTree(obj, rootName);
    assert t.children == MemberNodes(obj, Keys(obj));
    MembersRoundTrip(obj, Keys(obj));
    SameMembers(obj);
  }

  /** Collecting the members of all of an object's keys gives its fields. */
  lemma SameMembers(obj: Json)
    requires obj.JObject?
    ensures (map k | k in Keys(obj) :: obj.fields[k]) == obj.fields
  {
  }

  lemma {:induction false} MembersRoundTrip(obj: Json, keys: seq<string>)
    requires Canonical(obj) && forall k | k in keys :: k in obj.fields
    ensures ForestMembers(MemberNodes(obj, keys)) == map k | k in keys :: obj.fields[k]
    decreases obj, 0, |keys|
  {
    if keys != [] {
      var n := |keys| - 1;
      var last := keys[n];
      var cs := MemberNodes(obj, keys);
      var prefix := ForestMembers(MemberNodes(obj, keys[..n]));
      assert prefix == map k | k in keys[..n] :: obj.fields[k] by {
        MembersRoundTrip(obj, keys[..n]);
      }
      var node := MemberNode(last, obj.fields[last]);
      assert node.name == last && NodeValue(node) == obj.fields[last] by {
        assert !EndsWithSlash(last) && (obj.fields[last].JString? || Canonical(obj.fields[last]));
        MemberRoundTrip(last, obj.fields[last]);
      }
      assert ForestMembers(cs) == prefix[node.name := NodeValue(node)] by {
        assert cs[..n] == MemberNodes(obj, keys[..n]);
        assert cs[n] == node;
      }
      MembersSnoc(obj, keys);
    }
  }

  /** The members of `keys` are those of all but its last key, updated with the last. */
  lemma MembersSnoc(obj: Json, keys: seq<string>)
    requires obj.JObject? && keys != [] && forall k | k in keys :: k in obj.fields
    ensures var last := keys[|keys| - 1];
      (map k | k in keys :: obj.fields[k]) == (map k | k in keys[..|keys| - 1] :: obj.fields[k])[last := obj.fields[last]]
  {
    var n := |keys| - 1;
    assert forall k :: k in keys <==> k in keys[..n] || k == keys[n];
  }

  lemma {:induction false} MemberRoundTrip(key: string, value: Json)
    requires !EndsWithSlash(key) && (value.JString? || Canonical(value))
    ensures MemberNode(key, value).name == key
    ensures NodeValue(MemberNode(key, value)) == value
    decreases value, 1
  {
    var n := MemberNode(key, value);
    if value.JObject? {
      assert n.children == MemberNodes(value, Keys(value));
      MembersRoundTrip(value, Keys(value));
      SameMembers(value);
    }
  }

  /** The children of a structure's tree carry the keys, stripped of a trailing '/', in
      ascending key order. */
  lemma ChildrenInKeyOrder(obj: Json, rootName: string)
    requires obj.JObject?
    ensures var t := StructureTree(obj, rootName);
      forall i | 0 <= i < |t.children| ::
        Keys(obj)[i] in obj.fields && t.children[i].name == StripSlash(Keys(obj)[i])
    ensures StrictlySorted(Keys(obj)) && forall k :: k in Keys(obj) <==> k in obj.fields
  {
    SortedSetSpec(obj.fields.Keys);
  }
}
