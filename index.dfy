/** The two entry points of the library (src/index.ts): `getType` parses any
    value and emits the declarations of its type; `getItemType` does the same
    for the items of an array. A thrown `Error` is an `Err` result. Both
    parse with src/parse.ts, the parser without parent links
    (`trackParents = false`), as src/index.ts imports it; the keys that
    parser drops are `ParseRequired.ParseDropsContainerKey`. */
module Index {
  import opened Wrappers
  import opened Json
  import opened Parse
  import opened Emit
  import opened Text
  import ParseItems

  function OrDefault(name: Option<string>, default: string): string
  {
    if name.Some? then name.value else default
  }

  /** `getType(input, rootName = "Root")`: the declarations for the type of
      `input`, the root one first under `rootName`. It never throws: the
      parsed root always has the type of `input`. */
  method GetType(input: JsonValue, rootName: Option<string>) returns (r: Result<string>)
    ensures r.Ok?
    ensures var out := NodeOut([Field(OrDefault(rootName, "Root"))], ParseTree(false, input), {}, true, true);
      |out.ids| > 0 && |out.decls| > 0 && out.decls[0] == RootDeclaration(OrDefault(rootName, "Root"), out.ids)
    ensures r == EmitSpec(ParseTree(false, input), EmitConfig(Some(OrDefault(rootName, "Root")), None))
    ensures IsPrimitive(input) ==> r.value == RootDeclaration(OrDefault(rootName, "Root"), [ValueType(input)])
  {
    var root := Parse.Parse(false, input);
    var config := EmitConfig(Some(OrDefault(rootName, "Root")), None);
    r := Emit.Emit(root, config);
    if IsPrimitive(input) {
      ParsePrimitive(false, input);
      PrimitiveLeaf(ValueType(input));
    }
  }

  lemma PrimitiveLeaf(t: string)
    requires t != "object" && t != "array"
    ensures LeafIdentifiers([t]) == [t]
  {
    assert PrimitiveTypes([t]) == [t] + PrimitiveTypes([]);
  }

  /** The default root name is kept as it is: its path name is `Root`. */
  lemma DefaultRootPathName()
    ensures PathToName([Field("Root")], "") == "Root"
  {
    var root := "Root";
    assert AllAlnum(root) by {
      forall x | x in root ensures IsAlnum(x) {
        assert x == root[0] || x == root[1] || x == root[2] || x == root[3];
      }
    }
    SegmentNameOfWord(root);
    assert Capitalize(root) == root;
    assert SegmentNames([Field(root)]) == [root];
    assert Concat([root]) == root + Concat([]);
  }

  /** A primitive at the root becomes a single type alias: `getType(42)` is
      `type Root = number;`. */
  lemma PrimitiveAlias(input: JsonValue)
    requires IsPrimitive(input)
    ensures RootDeclaration("Root", [ValueType(input)]) == "type Root = " + ValueType(input) + ";"
  {
    var t := ValueType(input);
    assert !IsInterfaceUnion([t]);
    DefaultRootPathName();
    var name := PathToName([Field("Root")], "");
    assert RootDeclaration("Root", [t]) == RenderDeclaration(name, t, false);
    RootAliasText(name, t, RootDeclaration("Root", [t]));
  }

  lemma RootAliasText(name: string, body: string, decl: string)
    requires name == "Root" && decl == "type " + name + " = " + body + ";"
    ensures decl == "type Root = " + body + ";"
  {
  }

  /** `getItemType(input, rootName = "Item")`: the declarations for the type
      of the items of the array `input`, the root one first under
      `rootName`. An empty array is read as `[{}]`, one empty object. The
      only error is a non-array input: the parsed array always has an item
      node (`Parse.ArrayItem`), so the "Parser error: Did not find array
      item" of src/index.ts:19 is never thrown, and that node has a type, so
      `emit` does not throw either. The item of an empty array is then an
      empty object, whose type is `any`: `getItemType([])` is
      `type Item = any;`. */
  method GetItemType(input: JsonValue, rootName: Option<string>) returns (r: Result<string>)
    ensures r.Err? <==> !input.Arr?
    ensures r.Err? ==> r.message == "Input is not an array"
    ensures input.Arr? && |input.items| > 0 ==>
      && ChildAt(ParseTree(false, input), Item).Some?
      && r == EmitSpec(ChildAt(ParseTree(false, input), Item).value, EmitConfig(Some(OrDefault(rootName, "Item")), None))
      && var out := NodeOut([Field(OrDefault(rootName, "Item"))], ChildAt(ParseTree(false, input), Item).value, {}, true, true);
         |out.ids| > 0 && |out.decls| > 0 && out.decls[0] == RootDeclaration(OrDefault(rootName, "Item"), out.ids)
    ensures input == Arr([]) ==> r == Ok(RootDeclaration(OrDefault(rootName, "Item"), ["any"]))
    ensures input == Arr([]) && rootName.None? ==> r == Ok("type Item = any;")
  {
    if !input.Arr? {
      return Err("Input is not an array");
    }
    var data := if |input.items| > 0 then input else Arr([Obj([])]);
    var root := Parse.Parse(false, data);
    ArrayItem(false, data.items);
    var itemRoot := ChildAt(root, Item);
    assert itemRoot.Some?;
    var name := OrDefault(rootName, "Item");
    r := Emit.Emit(itemRoot.value, EmitConfig(Some(name), None));
    if |input.items| == 0 {
      EmptyItemAlias(data.items, itemRoot.value, name);
      if rootName.None? {
        DefaultItemAlias();
      }
    }
  }

  /** The item node of `[{}]` is declared `type <name> = any;`. */
  lemma EmptyItemAlias(items: seq<JsonValue>, node: TypeNode, name: string)
    requires items == [Obj([])] && ChildAt(ParseTree(false, Arr(items)), Item) == Some(node)
    ensures EmitSpec(node, EmitConfig(Some(name), None)) == Ok(RootDeclaration(name, ["any"]))
  {
    EmptyItemNode(items, node);
    ObjectOnlyAlias(node, name);
  }

  /** That item node is an object node without children. */
  lemma EmptyItemNode(items: seq<JsonValue>, node: TypeNode)
    requires items == [Obj([])] && ChildAt(ParseTree(false, Arr(items)), Item) == Some(node)
    ensures node.children == Present([]) && |node.types| > 0
    ensures forall j :: 0 <= j < |node.types| ==> node.types[j] == "object"
  {
    ParseItems.EmptyObjectItem(false, items);
    ParseItems.ArrayItemTypes(false, items);
    assert ValueType(items[0]) in node.types;
    forall j | 0 <= j < |node.types| ensures node.types[j] == "object" {
      assert node.types[j] in node.types;
    }
  }

  /** An object node without children is emitted as `type <name> = any;`. */
  lemma ObjectOnlyAlias(node: TypeNode, name: string)
    requires node.children == Present([]) && |node.types| > 0
    requires forall j :: 0 <= j < |node.types| ==> node.types[j] == "object"
    ensures EmitSpec(node, EmitConfig(Some(name), None)) == Ok(RootDeclaration(name, ["any"]))
  {
    var config := EmitConfig(Some(name), None);
    var typeName := PathToName([Field(name)], "");
    assert RootName(config) == name;
    EmptyObjectDeclared([Field(name)], node);
    assert Join(["type " + typeName + " = any;"], "\n\n") == "type " + typeName + " = any;";
    assert InlineUnion(["any"]) == "any";
    assert !IsInterfaceUnion(["any"]) by {
      assert "any"[0] == 'a';
    }
    AnyAliasText(typeName);
  }

  /** With the default name, that declaration is `type Item = any;`. */
  lemma DefaultItemAlias()
    ensures RootDeclaration("Item", ["any"]) == "type Item = any;"
  {
    var item := "Item";
    assert AllAlnum(item) by {
      forall x | x in item ensures IsAlnum(x) {
        assert x == item[0] || x == item[1] || x == item[2] || x == item[3];
      }
    }
    WordPathName(item, "");
    assert InlineUnion(["any"]) == "any";
    assert !IsInterfaceUnion(["any"]) by {
      assert "any"[0] == 'a';
    }
    AliasText(PathToName([Field(item)], ""), RootDeclaration(item, ["any"]));
  }

  lemma AliasText(typeName: string, decl: string)
    requires typeName == "" + "Item" && decl == "type " + typeName + " = " + "any" + ";"
    ensures decl == "type Item = any;"
  {
  }
}
