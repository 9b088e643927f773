// The in-memory registry of registry.go: objects read from the registry's
// attribute files, the schema that names their keys and relations, the key
// index, and the decoration that links related objects to each other.
module Registry {

  import opened Wrappers
  import opened Text
  import opened Seqs

  // ---------------------------------------------------------------------
  // References

  /** RegistryMakePath: the reference "type/name" of an obj. */
  function MakePath(t: String, o: String): String
  {
    t + "/" + o
  }

  /** A type name without '/' is read back from a reference: the first '/' ends it and the name follows. */
  lemma MakePathSplit(t: String, o: String)
    requires '/' !in t
    ensures IndexOf(MakePath(t, o), '/') == |t|
    ensures MakePath(t, o)[..|t|] == t && MakePath(t, o)[|t| + 1..] == o
  {
    IndexOfAfter(t, o, '/');
  }

  /** Distinct (type, name) pairs get distinct references. */
  lemma MakePathInjective(t1: String, o1: String, t2: String, o2: String)
    requires '/' !in t1 && '/' !in t2
    ensures MakePath(t1, o1) == MakePath(t2, o2) <==> t1 == t2 && o1 == o2
  {
    if MakePath(t1, o1) == MakePath(t2, o2) {
      MakePathSplit(t1, o1);
      MakePathSplit(t2, o2);
    }
  }

  // ---------------------------------------------------------------------
  // Entities

  /** One attribute of an object: a key and its (possibly multi-line) value. */
  class RegAttribute {
    const Key: String
    /** The value shown to clients: the raw value, or a link once decorated. */
    var Value: String
    /** The value as read from the file, continuation lines joined by "\n"; not changed once loaded. */
    const RawValue: String
    /** The type whose directory holds the file the attribute was read from. */
    ghost const Type: String

    constructor(key: String, raw: String, ghost typeName: String)
      ensures Key == key && RawValue == raw && Value == "" && Type == typeName
    {
      Key := key;
      RawValue := raw;
      Value := "";
      Type := typeName;
    }

    /**
     * matchRelation: when one of the relations holds an object named by the
     * raw value, the value becomes a link to the object of the first such
     * relation, and that object records parent as a backlink.
     */
    method MatchRelation(parent: RegObject, relations: seq<RegType>) returns (matched: bool)
      modifies this`Value, Found(FirstTarget(relations, RawValue))`Backlinks
      ensures matched <==> FirstTarget(relations, RawValue).Some?
      ensures Value == if matched then LinkText(RawValue, FirstTarget(relations, RawValue).value.Ref) else old(Value)
      ensures matched ==> FirstTarget(relations, RawValue).value.Backlinks == WithLink(old(FirstTarget(relations, RawValue).value.Backlinks), parent)
    {
      for i := 0 to |relations|
        invariant FirstTarget(relations[i..], RawValue) == FirstTarget(relations, RawValue)
      {
        assert relations[i..][1..] == relations[i + 1..];
        if RawValue in relations[i].Objects {
          var target := relations[i].Objects[RawValue];
          Value := LinkText(RawValue, target.Ref);
          target.AddBacklink(parent);
          return true;
        }
      }
      return false;
    }
  }

  /** A registry object: one file of a type directory. */
  class RegObject {
    const Ref: String
    const Data: seq<RegAttribute>
    /** The objects whose attributes refer to this one. */
    var Backlinks: seq<RegObject>
    /** The type the object was loaded into, and the name of its file. */
    ghost const Type: String
    ghost const Name: String

    /** The object loadObjects makes of one file: its reference is the type and the file name. */
    constructor(typeName: String, filename: String, data: seq<RegAttribute>)
      ensures Ref == MakePath(typeName, filename) && Data == data && Backlinks == []
      ensures Type == typeName && Name == filename
    {
      Ref := MakePath(typeName, filename);
      Data := data;
      Backlinks := [];
      Type := typeName;
      Name := filename;
    }

    /** GetKey: the attributes whose key is exactly key, in file order. */
    method GetKey(key: String) returns (r: seq<RegAttribute>)
      ensures r == KeyAttrs(Data, key)
    {
      r := [];
      for i := 0 to |Data|
        invariant r == KeyAttrs(Data[..i], key)
      {
        FilterStep(Data, i, HasKey(key));
        if Data[i].Key == key {
          r := r + [Data[i]];
        }
      }
      assert Data[..|Data|] == Data;
    }

    /** GetSingleKey: the attribute with the key when exactly one has it, None otherwise. */
    method GetSingleKey(key: String) returns (r: Option<RegAttribute>)
      ensures r.Some? <==> |KeyAttrs(Data, key)| == 1
      ensures r.Some? ==> r.value in Data && r.value.Key == key
      ensures r.Some? ==> forall a :: a in Data && a.Key == key ==> a == r.value
    {
      var attributes := GetKey(key);
      if |attributes| != 1 {
        return None;
      }
      KeyAttrsSpec(Data, [], key);
      return Some(attributes[0]);
    }

    /** addBacklink: record ref unless it is already recorded. */
    method AddBacklink(ref: RegObject)
      modifies this`Backlinks
      ensures Backlinks == WithLink(old(Backlinks), ref)
    {
      for i := 0 to |Backlinks|
        invariant ref !in Backlinks[..i]
      {
        if Backlinks[i] == ref {
          return;
        }
      }
      assert Backlinks[..|Backlinks|] == Backlinks;
      Backlinks := Backlinks + [ref];
    }
  }

  /** A registry type: the objects of one directory, by file name. */
  class RegType {
    const Ref: String
    const Objects: map<String, RegObject>

    constructor(ref: String, objects: map<String, RegObject>)
      ensures Ref == ref && Objects == objects
    {
      Ref := ref;
      Objects := objects;
    }
  }

  /** The schema of one key: the words after its name, and the types it looks up. */
  class RegAttributeSchema {
    const Fields: seq<String>
    var Relations: seq<RegType>

    constructor(fields: seq<String>)
      ensures Fields == fields && Relations == []
    {
      Fields := fields;
      Relations := [];
    }

    /**
     * The second pass of parseSchema for one key: the types named by its
     * first "lookup=" field become its relations; a key without one keeps
     * the relations it has.
     */
    method Link(types: map<String, RegType>)
      modifies this`Relations
      ensures Relations == if LookupField(Fields).Some? then Lookups(Fields, types) else old(Relations)
    {
      for i := 0 to |Fields|
        invariant forall j :: 0 <= j < i ==> !HasPrefix(Fields[j], "lookup=")
        invariant Relations == old(Relations)
      {
        var field := Fields[i];
        if HasPrefix(field, "lookup=") {
          LookupFieldAt(Fields, i);
          var rels := Split(TrimPrefix(field, "lookup="), ',');
          var relations: seq<RegType> := [];
          for ix := 0 to |rels|
            invariant relations == RelTypes(rels[..ix], types)
          {
            var relName := TrimPrefix(rels[ix], "dn42.");
            assert rels[..ix + 1][..ix] == rels[..ix];
            if relName in types {
              relations := relations + [types[relName]];
            }
          }
          assert rels[..|rels|] == rels;
          Relations := relations;
          return;
        }
      }
      LookupFieldSpec(Fields);
    }
  }

  /** The schema of one type: its keys, and the index from key and object to attributes. */
  class RegTypeSchema {
    const Ref: String
    /** Filled from the schema object before the type schema is registered, and not changed after. */
    const Attributes: map<String, RegAttributeSchema>
    var KeyIndex: KeyIndexMap
    /** The schema object the type schema was read from. */
    ghost const Source: RegObject

    constructor(ref: String, attributes: map<String, RegAttributeSchema>, ghost source: RegObject)
      ensures Ref == ref && Attributes == attributes && Source == source && KeyIndex == map[]
    {
      Ref := ref;
      Attributes := attributes;
      Source := source;
      KeyIndex := map[];
    }

    /** The schema object it was read from names this type and defines exactly its keys. */
    ghost predicate ReadFromSource()
    {
      SchemaName(Source) == Some(Ref) && KeyFieldMap(KeyWords(Source)) == Some(FieldsOf(Attributes))
    }

    /** As the first pass of parseSchema leaves a type schema: no object indexed and no key linked yet. */
    predicate Unlinked()
      reads this, Attributes.Values
    {
      KeyIndex == map[] && forall a :: a in Attributes.Values ==> a.Relations == []
    }

    /** validate: keep the attributes whose key is user defined ("x-") or named by the schema, in order. */
    method Validate(attributes: seq<RegAttribute>) returns (validated: seq<RegAttribute>)
      ensures validated == Validated(attributes, Attributes.Keys)
    {
      validated := [];
      for i := 0 to |attributes|
        invariant validated == Validated(attributes[..i], Attributes.Keys)
      {
        FilterStep(attributes, i, Allowed(Attributes.Keys));
        var attribute := attributes[i];
        if !HasPrefix(attribute.Key, "x-") {
          if attribute.Key !in Attributes {
            continue;
          }
        }
        validated := validated + [attribute];
      }
      assert attributes[..|attributes|] == attributes;
    }

    /** The second pass of parseSchema for one type: each key is linked to the types it looks up. */
    method LinkAttributes(types: map<String, RegType>)
      modifies Attributes.Values
      ensures forall a :: a in Attributes.Values && LookupField(a.Fields).Some? ==> Linked(a, types)
      ensures forall a :: a in Attributes.Values && LookupField(a.Fields).None? ==> a.Relations == old(a.Relations)
    {
      var todo := Attributes.Keys;
      while todo != {}
        invariant todo <= Attributes.Keys
        invariant forall a :: a in Attributes.Values && LookupField(a.Fields).None? ==> a.Relations == old(a.Relations)
        invariant forall k :: k in Attributes && k !in todo && LookupField(Attributes[k].Fields).Some? ==> Linked(Attributes[k], types)
        decreases todo
      {
        var k :| k in todo;
        Attributes[k].Link(types);
        todo := todo - {k};
      }
    }

    /** addKeyIndex: append the attribute to the entry for its key and object, creating the inner map when missing. */
    method AddKeyIndex(obj: RegObject, attribute: RegAttribute)
      modifies this`KeyIndex
      ensures KeyIndex == AddKey(old(KeyIndex), obj, attribute)
    {
      var objmap: map<RegObject, seq<RegAttribute>>;
      if attribute.Key in KeyIndex {
        objmap := KeyIndex[attribute.Key];
      } else {
        objmap := map[];
        KeyIndex := KeyIndex[attribute.Key := objmap];
      }
      var prior := if obj in objmap then objmap[obj] else [];
      KeyIndex := KeyIndex[attribute.Key := objmap[obj := prior + [attribute]]];
    }

    /**
     * The body of decorate's loop for one attribute of obj, whose type has
     * the relations rels: the attribute is added to the key index, takes its
     * decorated value, and the object it links to records obj as a backlink.
     */
    method DecorateAttribute(obj: RegObject, attribute: RegAttribute, ghost rels: Relations, ghost targets: set<RegObject>)
      requires attribute.Key in rels <==> attribute.Key in Attributes
      requires attribute.Key in rels ==> rels[attribute.Key] == Attributes[attribute.Key].Relations
      requires Found(Target(rels, attribute)) <= targets
      modifies this`KeyIndex, attribute`Value, targets`Backlinks
      ensures forall k :: k in Attributes ==> Attributes[k].Relations == old(Attributes[k].Relations)
      ensures attribute.Value == Decoration(rels, attribute)
      ensures KeyIndex == AddKey(old(KeyIndex), obj, attribute)
      ensures forall T :: T in targets ==> T.Backlinks == if Target(rels, attribute) == Some(T) then WithLink(old(T.Backlinks), obj) else old(T.Backlinks)
    {
      ghost var found := Target(rels, attribute);
      AddKeyIndex(obj, attribute);
      assert found.Some? ==> found.value.Backlinks == old(found.value.Backlinks);
      var matched := false;
      if attribute.Key in Attributes {
        matched := attribute.MatchRelation(obj, Attributes[attribute.Key].Relations);
      }
      if !matched {
        attribute.Value := attribute.RawValue;
      }
    }

    /**
     * decorate for one object of this type: every attribute is added to the
     * key index and takes its decorated value, and every object an attribute
     * links to records obj as a backlink.
     */
    method DecorateObject(obj: RegObject, ghost rels: Relations, ghost targets: set<RegObject>)
      requires rels.Keys == Attributes.Keys && forall k :: k in Attributes ==> Attributes[k].Relations == rels[k]
      requires TargetsOf(rels) <= targets
      modifies this`KeyIndex, obj.Data`Value, targets`Backlinks
      ensures forall k :: k in Attributes ==> Attributes[k].Relations == rels[k]
      ensures Valued(obj.Data, rels)
      ensures KeyIndex == IndexAttrs(old(KeyIndex), obj, obj.Data)
      ensures Relinked(rels, obj.Data, targets, obj)
    {
      ghost var links1 := LinksOf(targets);
      for i := 0 to |obj.Data|
        invariant forall k :: k in Attributes ==> Attributes[k].Relations == rels[k]
        invariant Valued(obj.Data[..i], rels)
        invariant KeyIndex == IndexAttrs(old(KeyIndex), obj, obj.Data[..i])
        invariant Snapshot(targets, links1) && LinkedNow(rels, obj.Data[..i], targets, links1, obj)
      {
        DecorateNextAttribute(obj, i, rels, targets, old(KeyIndex), links1);
      }
      assert obj.Data[..|obj.Data|] == obj.Data;
    }

    /** One more attribute of DecorateObject's loop: the attribute at i is decorated. */
    method DecorateNextAttribute(obj: RegObject, i: nat, ghost rels: Relations, ghost targets: set<RegObject>,
                                 ghost index0: KeyIndexMap, ghost links1: map<RegObject, seq<RegObject>>)
      requires i < |obj.Data|
      requires rels.Keys == Attributes.Keys && forall k :: k in Attributes ==> Attributes[k].Relations == rels[k]
      requires TargetsOf(rels) <= targets
      requires Valued(obj.Data[..i], rels)
      requires KeyIndex == IndexAttrs(index0, obj, obj.Data[..i])
      requires LinkedNow(rels, obj.Data[..i], targets, links1, obj)
      modifies this`KeyIndex, obj.Data`Value, targets`Backlinks
      ensures forall k :: k in Attributes ==> Attributes[k].Relations == rels[k]
      ensures Valued(obj.Data[..i + 1], rels)
      ensures KeyIndex == IndexAttrs(index0, obj, obj.Data[..i + 1])
      ensures LinkedNow(rels, obj.Data[..i + 1], targets, links1, obj)
    {
      var attribute := obj.Data[i];
      assert obj.Data[..i + 1] == obj.Data[..i] + [attribute];
      TargetIn(rels, attribute);
      DecorateAttribute(obj, attribute, rels, targets);
      LinkedFromStep(rels, obj.Data, i, obj);
    }

    /**
     * The body of decorate for one type: each object of the type, in the
     * order listed by order, is decorated as by DecorateObject.  The objects
     * are told apart by the names they were loaded under.
     */
    method DecorateType(rType: RegType, ghost rels: Relations, ghost targets: set<RegObject>, ghost attrs: set<RegAttribute>)
      returns (ghost order: seq<RegObject>)
      requires rels.Keys == Attributes.Keys && forall k :: k in Attributes ==> Attributes[k].Relations == rels[k]
      requires TargetsOf(rels) <= targets
      requires forall x, a :: x in rType.Objects.Values && a in x.Data ==> a in attrs
      modifies this`KeyIndex, attrs`Value, targets`Backlinks
      ensures Decorated(rType.Objects.Values, rels)
      ensures Listed(order, rType.Objects.Values) && KeyIndex == IndexObjects(old(KeyIndex), order)
      ensures Grown(rels, targets, rType.Objects.Values)
    {
      var todo := rType.Objects.Values;
      ghost var done: set<RegObject> := {};
      order := [];
      ghost var links0 := LinksOf(targets);
      while todo != {}
        invariant todo !! done && todo + done == rType.Objects.Values
        invariant Listed(order, done)
        invariant forall k :: k in Attributes ==> Attributes[k].Relations == rels[k]
        invariant Decorated(done, rels)
        invariant KeyIndex == IndexObjects(old(KeyIndex), order)
        invariant Snapshot(targets, links0) && LinkedSince(rels, targets, links0, done)
        decreases todo
      {
        var obj :| obj in todo;
        DecorateNext(obj, rels, targets, done, old(KeyIndex), order, links0);
        ListedStep(order, done, obj);
        done := done + {obj};
        order := order + [obj];
        todo := todo - {obj};
      }
      forall T | T in targets
        ensures LinkedAll(rels, old(T.Backlinks), T.Backlinks, rType.Objects.Values, T)
      {
      }
    }

    /** One more object of DecorateType's loop: obj is decorated and joins the objects indexed. */
    method DecorateNext(obj: RegObject, ghost rels: Relations, ghost targets: set<RegObject>, ghost done: set<RegObject>,
                        ghost index0: KeyIndexMap, ghost order: seq<RegObject>, ghost links0: map<RegObject, seq<RegObject>>)
      requires rels.Keys == Attributes.Keys && forall k :: k in Attributes ==> Attributes[k].Relations == rels[k]
      requires TargetsOf(rels) <= targets && targets <= links0.Keys && obj !in done
      requires KeyIndex == IndexObjects(index0, order)
      requires Decorated(done, rels)
      requires LinkedSince(rels, targets, links0, done)
      modifies this`KeyIndex, obj.Data`Value, targets`Backlinks
      ensures forall k :: k in Attributes ==> Attributes[k].Relations == rels[k]
      ensures Decorated(done + {obj}, rels)
      ensures KeyIndex == IndexObjects(index0, order + [obj])
      ensures LinkedSince(rels, targets, links0, done + {obj})
    {
      DecorateObject(obj, rels, targets);
      assert (order + [obj])[..|order|] == order;
      forall x, a | x in done + {obj} && a in x.Data
        ensures a.Value == Decoration(rels, a)
      {
        if a !in obj.Data {
          assert old(a.Value) == Decoration(rels, a);
        }
      }
      forall T: RegObject | T in targets
        ensures LinkedAll(rels, links0[T], LinkedFrom(rels, obj.Data, T, old(T.Backlinks), obj), done + {obj}, T)
      {
        LinkedAllStep(rels, links0[T], old(T.Backlinks), done, obj, T);
      }
    }
  }

  /** The registry: the schema of each type and the types themselves, by name. */
  class Registry {
    var Schema: map<String, RegTypeSchema>
    var Types: map<String, RegType>

    /** reloadRegistry bootstraps the "schema" type, loaded with the schema objects, before anything else. */
    constructor(schemaObjects: map<String, RegObject>)
      ensures Schema == map[] && Types.Keys == {"schema"}
      ensures fresh(Types["schema"]) && Types["schema"].Ref == "schema" && Types["schema"].Objects == schemaObjects
    {
      var schemaType := new RegType("schema", schemaObjects);
      Schema := map[];
      Types := map["schema" := schemaType];
    }

    /**
     * parseSchema: every schema object with a single "ref" defines the type
     * it names (creating the type when missing), then every key of every
     * type schema is linked to the types it looks up.  ok is false where the
     * source panics on a "key" value with no words.
     */
    method ParseSchema() returns (ok: bool)
      requires "schema" in Types && Schema == map[]
      modifies this
      ensures ok <==> old(SchemaSound(Types["schema"].Objects))
      ensures ok ==> Defined(old(Types["schema"].Objects), old(Types), old(Types["schema"].Objects).Keys, Schema, Types)
      ensures ok ==> forall t :: t in Types && t !in old(Types) ==> fresh(Types[t])
      ensures ok ==> forall t :: t in Schema ==> fresh(Schema[t]) && Schema[t].KeyIndex == map[]
      ensures ok ==> forall t, a :: t in Schema && a in Schema[t].Attributes.Values ==> Linked(a, Types)
    {
      var schema, types;
      schema, types, ok := DefineTypes(Types["schema"].Objects, Types);
      if !ok {
        return;
      }
      LinkRelations(schema, types);
      Schema := schema;
      Types := types;
    }

    /**
     * decorate: every attribute of every object of every type is added to
     * its type schema's key index and takes its decorated value, and each
     * object an attribute links to records the attribute's object as a
     * backlink.  rels holds the relations of each type schema, objs the
     * objects of the registry and attrs their attributes.  ok is false where
     * the source panics: an attribute of a type that has no schema.
     */
    method Decorate(ghost rels: map<String, Relations>, ghost objs: set<RegObject>, ghost attrs: set<RegAttribute>) returns (ok: bool)
      requires rels.Keys == Schema.Keys && forall t {:trigger Schema[t].Ref} :: t in Schema ==> Schema[t].Ref == t
      requires forall t {:trigger Types[t].Ref} :: t in Types ==> Types[t].Ref == t
      requires forall t {:trigger rels[t]} :: t in Schema ==> Schema[t].Attributes.Keys == rels[t].Keys
      requires forall t, k {:trigger Schema[t].Attributes[k].Relations} :: t in Schema && k in Schema[t].Attributes ==> Schema[t].Attributes[k].Relations == rels[t][k]
      requires forall t {:trigger TargetsOf(rels[t])} :: t in rels ==> TargetsOf(rels[t]) <= objs
      requires forall t, x {:trigger x in Types[t].Objects.Values} :: t in Types && x in Types[t].Objects.Values ==> x in objs && x.Type == t
      requires forall x, a {:trigger a in x.Data} :: x in objs && a in x.Data ==> a in attrs && a.Type == x.Type
      modifies Schema.Values`KeyIndex, attrs`Value, objs`Backlinks
      ensures ok <==> forall t {:trigger Bare(Types[t])} :: t in Types && t !in Schema ==> Bare(Types[t])
      ensures ok ==> forall t, x, a {:trigger Decoration(rels[t], a), x.Data} :: t in Types && t in Schema && x in Types[t].Objects.Values && a in x.Data ==> a.Value == Decoration(rels[t], a)
      ensures ok ==> forall t, k, x {:trigger Lookup(Schema[t].KeyIndex, k, x)} :: t in Schema ==> (Lookup(Schema[t].KeyIndex, k, x) ==
        if t in Types && x in Types[t].Objects.Values then Lookup(old(Schema[t].KeyIndex), k, x) + KeyAttrs(x.Data, k) else Lookup(old(Schema[t].KeyIndex), k, x))
      ensures ok ==> forall T {:trigger old(T.Backlinks)} :: T in objs ==> LinkedTypes(rels, Types, Types.Keys, old(T.Backlinks), T.Backlinks, T)
    {
      ok := DecorateTypes(Schema, Types, rels, objs, attrs);
      if ok {
        ghost var before, after := old(IndexesOf(Schema)), IndexesOf(Schema);
        IndexedLookups(after, before, Types);
        forall t, x, a | t in Types && t in Schema && x in Types[t].Objects.Values && a in x.Data
          ensures a.Value == Decoration(rels[t], a)
        {
          assert a in attrs && ValuesOf(attrs)[a] == a.Value;
        }
        forall t, k, x | t in Schema
          ensures Lookup(Schema[t].KeyIndex, k, x) ==
            if t in Types && x in Types[t].Objects.Values then Lookup(old(Schema[t].KeyIndex), k, x) + KeyAttrs(x.Data, k) else Lookup(old(Schema[t].KeyIndex), k, x)
        {
          assert after[t] == Schema[t].KeyIndex && before[t] == old(Schema[t].KeyIndex);
        }
        forall T | T in objs
          ensures LinkedTypes(rels, Types, Types.Keys, old(T.Backlinks), T.Backlinks, T)
        {
          assert LinkedAt(rels, Types, Types.Keys, old(LinksOf(objs)), LinksOf(objs), T);
          assert LinksOf(objs)[T] == T.Backlinks && old(LinksOf(objs))[T] == old(T.Backlinks);
        }
      }
    }
  }

  /**
   * The loop of decorate over the types, each decorated with the schema of
   * its name (the name a type is registered under is its Ref).  The loop
   * keeps the attribute values and backlinks in the ghost maps vals and
   * links, and the key index of each type in IndexesOf(schema); ValuesDone,
   * LinksDone and Indexed say what the types done have made of them.
   */
  method DecorateTypes(schema: map<String, RegTypeSchema>, types: map<String, RegType>,
                       ghost rels: map<String, Relations>, ghost objs: set<RegObject>, ghost attrs: set<RegAttribute>) returns (ok: bool)
    requires rels.Keys == schema.Keys && forall t {:trigger schema[t].Ref} :: t in schema ==> schema[t].Ref == t
    requires forall t {:trigger rels[t]} :: t in schema ==> schema[t].Attributes.Keys == rels[t].Keys
    requires forall t, k {:trigger schema[t].Attributes[k].Relations} :: t in schema && k in schema[t].Attributes ==> schema[t].Attributes[k].Relations == rels[t][k]
    requires forall t {:trigger TargetsOf(rels[t])} :: t in rels ==> TargetsOf(rels[t]) <= objs
    requires Typed(types, objs, attrs)
    modifies schema.Values`KeyIndex, attrs`Value, objs`Backlinks
    ensures ok <==> forall t {:trigger Bare(types[t])} :: t in types && t !in schema ==> Bare(types[t])
    ensures ok ==> ValuesDone(types, rels, types.Keys, ValuesOf(attrs))
    ensures ok ==> Indexed(IndexesOf(schema), types, types.Keys, old(IndexesOf(schema)))
    ensures ok ==> LinksDone(rels, types, objs, types.Keys, old(LinksOf(objs)), LinksOf(objs))
  {
    ok := true;
    var todo := types.Keys;
    ghost var done: set<String> := {};
    ghost var vals := ValuesOf(attrs);
    ghost var links0 := LinksOf(objs);
    ghost var links: map<RegObject, seq<RegObject>> := links0;
    ghost var index0 := IndexesOf(schema);
    while todo != {}
      invariant todo !! done && todo + done == types.Keys
      invariant links0 == old(LinksOf(objs)) && index0 == old(IndexesOf(schema))
      invariant forall t {:trigger Bare(types[t])} :: t in types && t in done && t !in schema ==> Bare(types[t])
      invariant forall u, k {:trigger schema[u].Attributes[k].Relations} :: u in schema && k in schema[u].Attributes ==> schema[u].Attributes[k].Relations == rels[u][k]
      invariant forall u, k {:trigger schema[u].Attributes[k]} :: u in schema && k in schema[u].Attributes ==> allocated(schema[u].Attributes[k])
      invariant Agrees(attrs, objs, vals, links)
      invariant ValuesDone(types, rels, done, vals)
      invariant LinksDone(rels, types, objs, done, links0, links)
      invariant Indexed(IndexesOf(schema), types, done, index0)
      decreases todo
    {
      var t :| t in todo;
      if t !in schema {
        if !Bare(types[t]) {
          return false;
        }
        LinksSkip(rels, types, objs, done, t, links0, links);
      } else {
        vals, links := DecorateStep(schema, types, t, rels, objs, attrs, done, links0, index0, vals, links);
      }
      Moved(todo, done, types.Keys, t);
      done := done + {t};
      todo := todo - {t};
    }
  }

  /**
   * One more type of decorate's loop, with a schema: the loop's invariant
   * grows by type t.  links0 and index0 hold the backlinks and key indexes
   * before the loop, vals and links the attribute values and backlinks
   * before this type, vals' and links' after.
   */
  method DecorateStep(schema: map<String, RegTypeSchema>, types: map<String, RegType>, t: String,
                      ghost rels: map<String, Relations>, ghost objs: set<RegObject>, ghost attrs: set<RegAttribute>, ghost done: set<String>,
                      ghost links0: map<RegObject, seq<RegObject>>, ghost index0: map<String, KeyIndexMap>,
                      ghost vals: map<RegAttribute, String>, ghost links: map<RegObject, seq<RegObject>>)
    returns (ghost vals': map<RegAttribute, String>, ghost links': map<RegObject, seq<RegObject>>)
    requires t in types && t in schema && t !in done
    requires rels.Keys == schema.Keys && forall t {:trigger schema[t].Ref} :: t in schema ==> schema[t].Ref == t
    requires forall t {:trigger rels[t]} :: t in schema ==> schema[t].Attributes.Keys == rels[t].Keys
    requires forall t {:trigger TargetsOf(rels[t])} :: t in rels ==> TargetsOf(rels[t]) <= objs
    requires Typed(types, objs, attrs)
    requires forall u, k {:trigger schema[u].Attributes[k].Relations} :: u in schema && k in schema[u].Attributes ==> schema[u].Attributes[k].Relations == rels[u][k]
    requires forall u, k {:trigger schema[u].Attributes[k]} :: u in schema && k in schema[u].Attributes ==> allocated(schema[u].Attributes[k])
    requires Agrees(attrs, objs, vals, links)
    requires ValuesDone(types, rels, done, vals)
    requires LinksDone(rels, types, objs, done, links0, links)
    requires Indexed(IndexesOf(schema), types, done, index0)
    modifies schema.Values`KeyIndex, attrs`Value, objs`Backlinks
    ensures forall u, k {:trigger schema[u].Attributes[k].Relations} :: u in schema && k in schema[u].Attributes ==> schema[u].Attributes[k].Relations == rels[u][k]
    ensures Agrees(attrs, objs, vals', links')
    ensures ValuesDone(types, rels, done + {t}, vals')
    ensures LinksDone(rels, types, objs, done + {t}, links0, links')
    ensures Indexed(IndexesOf(schema), types, done + {t}, index0)
  {
    ghost var before := IndexesOf(schema);
    vals', links' := DecorateNextType(schema, types, t, rels, objs, attrs, vals, links);
    ValuesStep(types, rels, done, t, objs, attrs, vals, vals');
    LinksStep(rels, types, objs, done, t, links0, links, links');
    ghost var after := IndexesOf(schema);
    IndexesKept(before, after, t);
    IndexedStep(before, after, types, done, t, index0);
  }

  /**
   * One more type of decorate's loop: type t is decorated with its own
   * schema, its objects indexed in the order order.  vals and links hold
   * the attribute values and backlinks before, vals' and links' after.
   */
  method DecorateNextType(schema: map<String, RegTypeSchema>, types: map<String, RegType>, t: String,
                          ghost rels: map<String, Relations>, ghost objs: set<RegObject>, ghost attrs: set<RegAttribute>,
                          ghost vals: map<RegAttribute, String>, ghost links: map<RegObject, seq<RegObject>>)
    returns (ghost vals': map<RegAttribute, String>, ghost links': map<RegObject, seq<RegObject>>)
    requires t in types && t in schema
    requires rels.Keys == schema.Keys && forall t {:trigger schema[t].Ref} :: t in schema ==> schema[t].Ref == t
    requires forall t {:trigger rels[t]} :: t in schema ==> schema[t].Attributes.Keys == rels[t].Keys
    requires forall u, k {:trigger schema[u].Attributes[k].Relations} :: u in schema && k in schema[u].Attributes ==> schema[u].Attributes[k].Relations == rels[u][k]
    requires forall u, k {:trigger schema[u].Attributes[k]} :: u in schema && k in schema[u].Attributes ==> allocated(schema[u].Attributes[k])
    requires TargetsOf(rels[t]) <= objs
    requires Typed(types, objs, attrs)
    requires Agrees(attrs, objs, vals, links)
    modifies schema.Values`KeyIndex, attrs`Value, objs`Backlinks
    ensures forall u, k {:trigger schema[u].Attributes[k].Relations} :: u in schema && k in schema[u].Attributes ==> schema[u].Attributes[k].Relations == rels[u][k]
    ensures Agrees(attrs, objs, vals', links')
    ensures ValuesKept(attrs, t, vals, vals') && ValuesDone(types, rels, {t}, vals')
    ensures IndexedFrom(schema[t].KeyIndex, old(schema[t].KeyIndex), types[t].Objects.Values)
    ensures forall u {:trigger schema[u].KeyIndex} :: u in schema && u != t ==> schema[u].KeyIndex == old(schema[u].KeyIndex)
    ensures LinksGrown(rels, types, t, objs, links, links')
  {
    ghost var mine := OfType(attrs, t);
    ghost var index0 := schema[t].KeyIndex;
    var order := schema[t].DecorateType(types[t], rels[t], objs, mine);
    IndexObjectsFrom(index0, order, types[t].Objects.Values);
    vals' := ValuesOf(attrs);
    links' := LinksOf(objs);
    DecoratedValues(types, rels, t, attrs, vals');
    forall T | T in objs
      ensures LinkedAll(rels[t], links[T], links'[T], types[t].Objects.Values, T)
    {
      assert links[T] == old(T.Backlinks);
    }
    forall u | u in schema && u != t
      ensures schema[u].KeyIndex == old(schema[u].KeyIndex)
    {
      assert schema[u].Ref != schema[t].Ref;
    }
  }

  /** The key index of each type schema. */
  ghost function IndexesOf(schema: map<String, RegTypeSchema>): (index: map<String, KeyIndexMap>)
    reads schema.Values
    ensures index.Keys == schema.Keys
  {
    map u | u in schema :: schema[u].KeyIndex
  }

  /** The key index of each type is as in index0, with the objects of the types done added. */
  ghost predicate Indexed(indexes: map<String, KeyIndexMap>, types: map<String, RegType>, done: set<String>, index0: map<String, KeyIndexMap>)
  {
    forall u :: u in indexes ==>
      u in index0 &&
      if u in types && u in done then IndexedFrom(indexes[u], index0[u], types[u].Objects.Values)
      else indexes[u] == index0[u]
  }

  /** Only the key index of type t differs from before. */
  lemma IndexesKept(before: map<String, KeyIndexMap>, after: map<String, KeyIndexMap>, t: String)
    requires t in before && before.Keys == after.Keys
    requires forall u :: u in before && u != t ==> after[u] == before[u]
    ensures after == before[t := after[t]]
  {
  }

  lemma IndexedStep(before: map<String, KeyIndexMap>, after: map<String, KeyIndexMap>, types: map<String, RegType>,
                    done: set<String>, t: String, index0: map<String, KeyIndexMap>)
    requires t in before && t in after && t in types && t !in done
    requires Indexed(before, types, done, index0)
    requires after == before[t := after[t]] && IndexedFrom(after[t], before[t], types[t].Objects.Values)
    ensures Indexed(after, types, done + {t}, index0)
  {
  }

  /** Every object of a type is one of objs and of that type; its attributes are among attrs and of its type. */
  ghost predicate Typed(types: map<String, RegType>, objs: set<RegObject>, attrs: set<RegAttribute>)
  {
    && (forall u, x {:trigger x in types[u].Objects.Values} :: u in types && x in types[u].Objects.Values ==> x in objs && x.Type == u)
    && (forall x, a {:trigger a in x.Data} :: x in objs && a in x.Data ==> a in attrs && a.Type == x.Type)
  }

  /** links0 holds the backlinks that the objects of objs had in the previous state. */
  twostate predicate Snapshot(objs: set<RegObject>, new links0: map<RegObject, seq<RegObject>>)
  {
    forall T :: T in objs ==> T in links0 && links0[T] == old(T.Backlinks)
  }

  /** The attributes of attrs that belong to type t. */
  ghost function OfType(attrs: set<RegAttribute>, t: String): (mine: set<RegAttribute>)
    ensures mine <= attrs && forall a :: a in attrs ==> (a in mine <==> a.Type == t)
  {
    set a | a in attrs && a.Type == t
  }

  /** The values of the attributes attrs. */
  ghost function ValuesOf(attrs: set<RegAttribute>): (vals: map<RegAttribute, String>)
    reads attrs
    ensures vals.Keys == attrs
  {
    map a | a in attrs :: a.Value
  }

  /** The backlinks of the objects objs. */
  ghost function LinksOf(objs: set<RegObject>): (links: map<RegObject, seq<RegObject>>)
    reads objs
    ensures links.Keys == objs
  {
    map T | T in objs :: T.Backlinks
  }

  /** The ghost maps vals and links hold the attribute values and backlinks of the heap. */
  ghost predicate Agrees(attrs: set<RegAttribute>, objs: set<RegObject>, vals: map<RegAttribute, String>, links: map<RegObject, seq<RegObject>>)
    reads attrs, objs
  {
    vals == ValuesOf(attrs) && links == LinksOf(objs)
  }

  /** In vals, every attribute of the types done that have a schema holds its decoration. */
  ghost predicate ValuesDone(types: map<String, RegType>, rels: map<String, Relations>, done: set<String>, vals: map<RegAttribute, String>)
  {
    forall u, x, a {:trigger Decoration(rels[u], a), x.Data} :: u in types && u in done && u in rels && x in types[u].Objects.Values && a in x.Data ==>
      a in vals && vals[a] == Decoration(rels[u], a)
  }

  /** In links, the backlinks of each object have grown from links0 by the objects of the types done that refer to it. */
  ghost predicate LinksDone(rels: map<String, Relations>, types: map<String, RegType>, objs: set<RegObject>, done: set<String>,
                            links0: map<RegObject, seq<RegObject>>, links: map<RegObject, seq<RegObject>>)
  {
    forall T :: T in objs ==> LinkedAt(rels, types, done, links0, links, T)
  }

  ghost predicate LinkedAt(rels: map<String, Relations>, types: map<String, RegType>, done: set<String>,
                           links0: map<RegObject, seq<RegObject>>, links: map<RegObject, seq<RegObject>>, T: RegObject)
  {
    T in links0 && T in links && LinkedTypes(rels, types, done, links0[T], links[T], T)
  }

  /** vals' agrees with vals on every attribute of attrs outside type t. */
  ghost predicate ValuesKept(attrs: set<RegAttribute>, t: String, vals: map<RegAttribute, String>, vals': map<RegAttribute, String>)
  {
    forall a {:trigger vals'[a]} :: a in attrs && a.Type != t ==> a in vals && a in vals' && vals'[a] == vals[a]
  }

  /** From links to links', the backlinks of each object of objs have grown by the objects of type t that refer to it. */
  ghost predicate LinksGrown(rels: map<String, Relations>, types: map<String, RegType>, t: String, objs: set<RegObject>,
                             links: map<RegObject, seq<RegObject>>, links': map<RegObject, seq<RegObject>>)
    requires t in rels && t in types
  {
    forall T {:trigger links'[T]} :: T in objs ==> T in links && T in links' && LinkedAll(rels[t], links[T], links'[T], types[t].Objects.Values, T)
  }

  /** The decorated attribute values of the objects of type t, as read into vals'. */
  lemma DecoratedValues(types: map<String, RegType>, rels: map<String, Relations>, t: String, attrs: set<RegAttribute>, vals': map<RegAttribute, String>)
    requires t in types && t in rels && vals'.Keys == attrs
    requires forall x, a :: x in types[t].Objects.Values && a in x.Data ==> a in attrs
    requires Decorated(types[t].Objects.Values, rels[t])
    requires forall a {:trigger vals'[a]} {:trigger a.Value} :: a in attrs ==> a.Value == vals'[a]
    ensures ValuesDone(types, rels, {t}, vals')
  {
  }

  lemma ValuesStep(types: map<String, RegType>, rels: map<String, Relations>, done: set<String>, t: String, objs: set<RegObject>, attrs: set<RegAttribute>,
                   vals: map<RegAttribute, String>, vals': map<RegAttribute, String>)
    requires t in types && t in rels && vals.Keys == attrs && vals'.Keys == attrs
    requires ValuesDone(types, rels, done, vals)
    requires Typed(types, objs, attrs)
    requires ValuesKept(attrs, t, vals, vals') && ValuesDone(types, rels, {t}, vals')
    ensures ValuesDone(types, rels, done + {t}, vals')
  {
    forall u, x, a | u in types && u in done + {t} && u in rels && x in types[u].Objects.Values && a in x.Data
      ensures a in vals' && vals'[a] == Decoration(rels[u], a)
    {
      if u != t {
        assert a.Type == u && vals[a] == Decoration(rels[u], a);
      }
    }
  }

  /** Moving t from todo to done keeps the two a partition of keys. */
  lemma Moved<T>(todo: set<T>, done: set<T>, keys: set<T>, t: T)
    requires todo !! done && todo + done == keys && t in todo
    ensures todo - {t} !! done + {t} && (todo - {t}) + (done + {t}) == keys
  {
  }

  lemma LinksStep(rels: map<String, Relations>, types: map<String, RegType>, objs: set<RegObject>, done: set<String>, t: String,
                  links0: map<RegObject, seq<RegObject>>, links: map<RegObject, seq<RegObject>>, links': map<RegObject, seq<RegObject>>)
    requires t in rels && t in types && links'.Keys == links.Keys
    requires LinksDone(rels, types, objs, done, links0, links)
    requires LinksGrown(rels, types, t, objs, links, links')
    ensures LinksDone(rels, types, objs, done + {t}, links0, links')
  {
    forall T | T in objs
      ensures LinkedAt(rels, types, done + {t}, links0, links', T)
    {
      assert LinkedAt(rels, types, done, links0, links, T);
      LinkedTypesStep(rels, types, done, t, links0[T], links[T], links'[T], T);
    }
  }

  lemma LinksSkip(rels: map<String, Relations>, types: map<String, RegType>, objs: set<RegObject>, done: set<String>, t: String,
                  links0: map<RegObject, seq<RegObject>>, links: map<RegObject, seq<RegObject>>)
    requires t !in rels
    requires LinksDone(rels, types, objs, done, links0, links)
    ensures LinksDone(rels, types, objs, done + {t}, links0, links)
  {
    forall T | T in objs
      ensures LinkedAt(rels, types, done + {t}, links0, links, T)
    {
      assert LinkedAt(rels, types, done, links0, links, T);
      LinkedTypesSkip(rels, types, done, t, links0[T], links[T], T);
    }
  }

  /** The second pass of parseSchema: every key of every type schema is linked to the types it looks up. */
  method LinkRelations(schema: map<String, RegTypeSchema>, types: map<String, RegType>)
    requires forall t :: t in schema ==> schema[t].Unlinked()
    modifies set t, a | t in schema && a in schema[t].Attributes.Values :: a
    ensures forall t, a :: t in schema && a in schema[t].Attributes.Values ==> Linked(a, types)
    ensures forall t :: t in schema ==> schema[t].KeyIndex == old(schema[t].KeyIndex)
  {
    var todo := schema.Keys;
    while todo != {}
      invariant todo <= schema.Keys
      invariant forall t, a :: t in schema && a in schema[t].Attributes.Values && LookupField(a.Fields).None? ==> a.Relations == []
      invariant forall t, a :: t in schema && t !in todo && a in schema[t].Attributes.Values ==> a.Relations == Lookups(a.Fields, types)
      decreases todo
    {
      var t :| t in todo;
      schema[t].LinkAttributes(types);
      todo := todo - {t};
    }
  }

  /**
   * The first pass of parseSchema over the schema objects objs and the
   * types so far: each object with a single "ref" defines the type it
   * names.  Objects are visited in the order of Go's map iteration, which
   * the model leaves open: when two objects name the same type, either may
   * be the one that stays.  ok is false where the source panics.
   */
  method DefineTypes(objs: map<String, RegObject>, types: map<String, RegType>)
    returns (schema: map<String, RegTypeSchema>, types': map<String, RegType>, ok: bool)
    ensures ok <==> SchemaSound(objs)
    ensures ok ==> Defined(objs, types, objs.Keys, schema, types')
    ensures ok ==> forall t :: t in types' && t !in types ==> fresh(types'[t])
    ensures ok ==> forall t :: t in schema ==> fresh(schema[t]) && fresh(schema[t].Attributes.Values) && schema[t].Unlinked()
  {
    schema := map[];
    types' := types;
    var todo := objs.Keys;
    while todo != {}
      invariant todo <= objs.Keys
      invariant Defined(objs, types, objs.Keys - todo, schema, types')
      invariant forall t :: t in types' && t !in types ==> fresh(types'[t])
      invariant forall t :: t in schema ==> fresh(schema[t]) && fresh(schema[t].Attributes.Values) && schema[t].Unlinked()
      decreases todo
    {
      var n :| n in todo;
      ghost var (done, types0, schema0) := (objs.Keys - todo, types', schema);
      var typeSchema;
      typeSchema, types', ok := DefineType(objs[n], types');
      if !ok {
        return;
      }
      if typeSchema.Some? {
        schema := schema[typeSchema.value.Ref := typeSchema.value];
      }
      DefinedStep(objs, types, done, n, schema0, types0, typeSchema, schema, types');
      todo := todo - {n};
    }
    ok := true;
  }

  /**
   * What the first pass has built once it has visited the schema objects
   * in done: every type one of them names has a type schema, each type
   * schema was read from a schema object naming its type, and the types
   * grow only by empty types that have a type schema.
   */
  ghost predicate Defined(objs: map<String, RegObject>, types: map<String, RegType>, done: set<String>,
                          schema: map<String, RegTypeSchema>, types': map<String, RegType>)
  {
    && (forall n :: n in done && n in objs && SchemaName(objs[n]).Some? ==>
          KeyFieldMap(KeyWords(objs[n])).Some? && SchemaName(objs[n]).value in schema)
    && (forall t :: t in types ==> t in types' && types'[t] == types[t])
    && (forall t :: t in types' && t !in types ==> t in schema && types'[t].Ref == t && types'[t].Objects == map[])
    && (forall t :: t in schema ==> schema[t].Ref == t && schema[t].Source in objs.Values && schema[t].ReadFromSource())
  }

  /** Visiting one more schema object, as DefineType does, keeps Defined. */
  lemma DefinedStep(objs: map<String, RegObject>, types: map<String, RegType>, done: set<String>, n: String,
                    schema: map<String, RegTypeSchema>, types1: map<String, RegType>,
                    typeSchema: Option<RegTypeSchema>, schema': map<String, RegTypeSchema>, types2: map<String, RegType>)
    requires Defined(objs, types, done, schema, types1) && n in objs
    requires SchemaName(objs[n]).None? || KeyFieldMap(KeyWords(objs[n])).Some?
    requires typeSchema.Some? <==> SchemaName(objs[n]).Some?
    requires typeSchema.None? ==> types2 == types1 && schema' == schema
    requires typeSchema.Some? ==>
      var t := typeSchema.value.Ref;
      && typeSchema.value.Source == objs[n] && typeSchema.value.ReadFromSource() && schema' == schema[t := typeSchema.value]
      && t in types2 && (t in types1 ==> types2 == types1)
      && (t !in types1 ==> types2 == types1[t := types2[t]] && types2[t].Ref == t && types2[t].Objects == map[])
    ensures Defined(objs, types, done + {n}, schema', types2)
  {
  }

  /**
   * The first pass of parseSchema for one schema object: None for an
   * object without a single "ref"; otherwise the type it names is created
   * when missing, and a new type schema holds the keys the object defines.
   * ok is false where the source panics on a "key" value with no words.
   */
  method DefineType(obj: RegObject, types: map<String, RegType>)
    returns (typeSchema: Option<RegTypeSchema>, types': map<String, RegType>, ok: bool)
    ensures ok <==> SchemaName(obj).None? || KeyFieldMap(KeyWords(obj)).Some?
    ensures ok ==> (typeSchema.Some? <==> SchemaName(obj).Some?)
    ensures ok && typeSchema.None? ==> types' == types
    ensures ok && typeSchema.Some? ==>
      var t := typeSchema.value.Ref;
      && t in types' && (t in types ==> types' == types)
      && (t !in types ==> types' == types[t := types'[t]] && fresh(types'[t]) && types'[t].Ref == t && types'[t].Objects == map[])
    ensures ok && typeSchema.Some? ==>
      && fresh(typeSchema.value) && fresh(typeSchema.value.Attributes.Values)
      && typeSchema.value.Source == obj && typeSchema.value.ReadFromSource() && typeSchema.value.Unlinked()
  {
    types' := types;
    var ref := obj.GetSingleKey("ref");
    if ref.None? {
      return None, types', true;
    }
    var typeName := TrimPrefix(ref.value.RawValue, "dn42.");
    assert SchemaName(obj) == Some(typeName) by {
      KeyAttrsSpec(obj.Data, [], "ref");
      assert ref.value in KeyAttrs(obj.Data, "ref");
    }
    if typeName !in types' {
      var rType := new RegType(typeName, map[]);
      types' := types'[typeName := rType];
    }
    var keyAttrs := obj.GetKey("key");
    assert KeyWords(obj) == WordsOf(RawsOf(keyAttrs));
    var attributes;
    attributes, ok := KeySchemas(keyAttrs);
    if !ok {
      return None, types', false;
    }
    var schema := new RegTypeSchema(typeName, attributes, obj);
    return Some(schema), types', true;
  }

  /** parseSchema runs to the end: every "key" value of a schema object that names a type has a word. */
  predicate SchemaSound(objs: map<String, RegObject>)
  {
    forall n :: n in objs && SchemaName(objs[n]).Some? ==> KeyFieldMap(KeyWords(objs[n])).Some?
  }

  /** A key's relations are the types its first "lookup=" field names. */
  predicate Linked(a: RegAttributeSchema, types: map<String, RegType>)
    reads a
  {
    a.Relations == Lookups(a.Fields, types)
  }

  /**
   * The first pass of parseSchema for one type: each "key" value names a
   * key by its first word and lists the key's fields after it; a later
   * value for the same key replaces an earlier one.  ok is false where the
   * source panics on a value with no words.
   */
  method KeySchemas(keys: seq<RegAttribute>) returns (attributes: map<String, RegAttributeSchema>, ok: bool)
    ensures ok <==> KeyFieldMap(WordsOf(RawsOf(keys))).Some?
    ensures ok ==> KeyFieldMap(WordsOf(RawsOf(keys))) == Some(FieldsOf(attributes))
    ensures forall k :: k in attributes ==> fresh(attributes[k]) && attributes[k].Relations == []
  {
    attributes := map[];
    ghost var ws := WordsOf(RawsOf(keys));
    for i := 0 to |keys|
      invariant KeyFieldMap(ws[..i]) == Some(FieldsOf(attributes))
      invariant forall k :: k in attributes ==> fresh(attributes[k]) && attributes[k].Relations == []
    {
      var fields := Fields(keys[i].RawValue);
      assert fields == ws[i];
      KeyFieldMapStep(ws, i);
      if |fields| == 0 {
        KeyFieldMapKeys(ws);
        return attributes, false;
      }
      var schema := new RegAttributeSchema(fields[1..]);
      FieldsOfUpdate(attributes, fields[0], schema);
      attributes := attributes[fields[0] := schema];
    }
    assert ws[..|keys|] == ws;
    ok := true;
  }

  /** The key index of a type schema: for each key, the attributes with that key of each object. */
  type KeyIndexMap = map<String, map<RegObject, seq<RegAttribute>>>

  /** The attributes a key index holds under key for obj; a missing map or entry reads as empty, as in Go. */
  function Lookup(index: KeyIndexMap, key: String, obj: RegObject): seq<RegAttribute>
  {
    if key in index && obj in index[key] then index[key][obj] else []
  }

  // ---------------------------------------------------------------------
  // Selections

  function HasKey(key: String): RegAttribute -> bool
  {
    (a: RegAttribute) => a.Key == key
  }

  /** The attributes of data with the given key, in order. */
  function KeyAttrs(data: seq<RegAttribute>, key: String): seq<RegAttribute>
  {
    Filter(data, HasKey(key))
  }

  /** Exactly the attributes with the key are selected, and selection respects concatenation (so keeps file order). */
  lemma KeyAttrsSpec(data: seq<RegAttribute>, more: seq<RegAttribute>, key: String)
    ensures forall a :: a in KeyAttrs(data, key) <==> a in data && a.Key == key
    ensures forall i :: 0 <= i < |KeyAttrs(data, key)| ==> KeyAttrs(data, key)[i] in data && KeyAttrs(data, key)[i].Key == key
    ensures KeyAttrs(data + more, key) == KeyAttrs(data, key) + KeyAttrs(more, key)
  {
    forall a
      ensures a in KeyAttrs(data, key) <==> a in data && a.Key == key
    {
      FilterMember(data, HasKey(key), a);
    }
    forall i | 0 <= i < |KeyAttrs(data, key)|
      ensures KeyAttrs(data, key)[i] in data && KeyAttrs(data, key)[i].Key == key
    {
      FilterMember(data, HasKey(key), KeyAttrs(data, key)[i]);
    }
    FilterAppend(data, more, HasKey(key));
  }

  function Allowed(keys: set<String>): RegAttribute -> bool
  {
    (a: RegAttribute) => HasPrefix(a.Key, "x-") || a.Key in keys
  }

  /** The attributes a schema with the given keys lets through, in order. */
  function Validated(attributes: seq<RegAttribute>, keys: set<String>): seq<RegAttribute>
  {
    Filter(attributes, Allowed(keys))
  }

  /** An attribute survives validation exactly when its key is user defined or in the schema; order and no more. */
  lemma ValidatedSpec(attributes: seq<RegAttribute>, more: seq<RegAttribute>, keys: set<String>)
    ensures forall a :: a in Validated(attributes, keys) <==> a in attributes && (HasPrefix(a.Key, "x-") || a.Key in keys)
    ensures Validated(attributes + more, keys) == Validated(attributes, keys) + Validated(more, keys)
    ensures |Validated(attributes, keys)| <= |attributes|
  {
    forall a
      ensures a in Validated(attributes, keys) <==> a in attributes && (HasPrefix(a.Key, "x-") || a.Key in keys)
    {
      FilterMember(attributes, Allowed(keys), a);
    }
    FilterAppend(attributes, more, Allowed(keys));
    FilterLength(attributes, Allowed(keys));
  }

  // ---------------------------------------------------------------------
  // Backlinks

  /** The backlinks after recording ref. */
  function WithLink(links: seq<RegObject>, ref: RegObject): seq<RegObject>
  {
    if ref in links then links else links + [ref]
  }

  /** Recording a backlink adds exactly ref, at most once: idempotent, growing, and free of duplicates. */
  lemma WithLinkSpec(links: seq<RegObject>, ref: RegObject)
    ensures forall x :: x in WithLink(links, ref) <==> x in links || x == ref
    ensures WithLink(WithLink(links, ref), ref) == WithLink(links, ref)
    ensures links <= WithLink(links, ref)
    ensures NoDup(links) ==> NoDup(WithLink(links, ref))
  {
    if NoDup(links) && ref !in links {
      var l := links + [ref];
      forall i, j | 0 <= i < j < |l|
        ensures l[i] != l[j]
      {
        if j == |links| {
          assert l[i] in links;
        }
      }
    }
  }

  // ---------------------------------------------------------------------
  // Decoration

  /** The text decorate gives a value that names an object: a markdown link to the object's reference. */
  function LinkText(raw: String, ref: String): String
  {
    "[" + raw + "](" + ref + ")"
  }

  /** The objects held by the given types. */
  function RelObjects(relations: seq<RegType>): set<RegObject>
  {
    set r, n | r in relations && n in r.Objects :: r.Objects[n]
  }

  /** The object found, as a set of at most one. */
  function Found(r: Option<RegObject>): set<RegObject>
  {
    if r.Some? then {r.value} else {}
  }

  /** matchRelation's search: the object named raw in the first relation that holds one. */
  function FirstTarget(relations: seq<RegType>, raw: String): Option<RegObject>
  {
    if |relations| == 0 then None
    else if raw in relations[0].Objects then Some(relations[0].Objects[raw])
    else FirstTarget(relations[1..], raw)
  }

  /** The search finds only objects of the relations. */
  lemma {:induction false} FirstTargetIn(relations: seq<RegType>, raw: String)
    ensures FirstTarget(relations, raw).Some? ==> FirstTarget(relations, raw).value in RelObjects(relations)
    decreases |relations|
  {
    if |relations| > 0 && raw !in relations[0].Objects {
      FirstTargetIn(relations[1..], raw);
      assert RelObjects(relations[1..]) <= RelObjects(relations);
    }
  }

  /** The search finds nothing exactly when no relation holds raw, and otherwise stops at the first one that does. */
  lemma {:induction false} FirstTargetSpec(relations: seq<RegType>, raw: String)
    ensures FirstTarget(relations, raw).None? <==> forall i :: 0 <= i < |relations| ==> raw !in relations[i].Objects
    ensures forall i :: 0 <= i < |relations| && raw in relations[i].Objects && (forall j :: 0 <= j < i ==> raw !in relations[j].Objects) ==>
      FirstTarget(relations, raw) == Some(relations[i].Objects[raw])
    decreases |relations|
  {
    if |relations| > 0 {
      FirstTargetSpec(relations[1..], raw);
      assert forall i :: 1 <= i < |relations| ==> relations[i] == relations[1..][i - 1];
    }
  }

  /** The relations of each key of a type schema, by key. */
  type Relations = map<String, seq<RegType>>

  /** The objects the keys with the given relations can link to. */
  function TargetsOf(rels: Relations): set<RegObject>
  {
    set k, target | k in rels && target in RelObjects(rels[k]) :: target
  }

  /** The object an attribute links to under the given relations, if any. */
  function Target(rels: Relations, a: RegAttribute): Option<RegObject>
  {
    if a.Key in rels then FirstTarget(rels[a.Key], a.RawValue) else None
  }

  /** An attribute links only to an object of one of its key's relations. */
  lemma TargetIn(rels: Relations, a: RegAttribute)
    ensures Target(rels, a).Some? ==> Target(rels, a).value in TargetsOf(rels)
  {
    if a.Key in rels {
      FirstTargetIn(rels[a.Key], a.RawValue);
    }
  }

  /** The value decorate leaves in an attribute: a link to its target, or the raw value. */
  function Decoration(rels: Relations, a: RegAttribute): String
  {
    match Target(rels, a)
    case Some(target) => LinkText(a.RawValue, target.Ref)
    case None => a.RawValue
  }

  /** Some attribute of data links to target. */
  predicate Refers(rels: Relations, data: seq<RegAttribute>, target: RegObject)
  {
    exists a :: a in data && Target(rels, a) == Some(target)
  }


  /** The attributes of the objects of a type. */
  function AttrsOf(objects: map<String, RegObject>): set<RegAttribute>
  {
    set n, a | n in objects && a in objects[n].Data :: a
  }

  /** addKeyIndex on a key index: attribute appended to obj's entry under the attribute's key. */
  function AddKey(index: KeyIndexMap, obj: RegObject, attribute: RegAttribute): KeyIndexMap
  {
    var objmap: map<RegObject, seq<RegAttribute>> := if attribute.Key in index then index[attribute.Key] else map[];
    index[attribute.Key := objmap[obj := Lookup(index, attribute.Key, obj) + [attribute]]]
  }

  /** Adding a key registers it and touches one entry, which grows by the attribute. */
  lemma AddKeySpec(index: KeyIndexMap, obj: RegObject, attribute: RegAttribute, k: String, x: RegObject)
    ensures AddKey(index, obj, attribute).Keys == index.Keys + {attribute.Key}
    ensures Lookup(AddKey(index, obj, attribute), k, x) ==
      if k == attribute.Key && x == obj then Lookup(index, k, x) + [attribute] else Lookup(index, k, x)
  {
  }

  /** The key index once the attributes data of obj are added, in order. */
  function IndexAttrs(index: KeyIndexMap, obj: RegObject, data: seq<RegAttribute>): KeyIndexMap
  {
    if |data| == 0 then index
    else AddKey(IndexAttrs(index, obj, data[..|data| - 1]), obj, data[|data| - 1])
  }

  /** Adding the attributes of obj appends to obj's entry under each key the attributes with that key, in order, and changes no other object's entries. */
  lemma {:induction false} IndexAttrsSpec(index: KeyIndexMap, obj: RegObject, data: seq<RegAttribute>, k: String, x: RegObject)
    ensures Lookup(IndexAttrs(index, obj, data), k, x) ==
      if x == obj then Lookup(index, k, x) + KeyAttrs(data, k) else Lookup(index, k, x)
    decreases |data|
  {
    if |data| > 0 {
      var i := |data| - 1;
      var mid := IndexAttrs(index, obj, data[..i]);
      IndexAttrsSpec(index, obj, data[..i], k, x);
      AddKeySpec(mid, obj, data[i], k, x);
      if x == obj {
        FilterStep(data, i, HasKey(k));
        assert data[..i + 1] == data;
        AppendAssoc(Lookup(index, k, obj), KeyAttrs(data[..i], k), if data[i].Key == k then [data[i]] else []);
      }
    }
  }


  /** The key index once the objects of order are indexed, one after another. */
  function IndexObjects(index: KeyIndexMap, order: seq<RegObject>): KeyIndexMap
  {
    if |order| == 0 then index
    else var i := |order| - 1; IndexAttrs(IndexObjects(index, order[..i]), order[i], order[i].Data)
  }

  /** Indexing objects listed once each appends to each one's entry under each key its attributes with that key, whatever the order. */
  lemma {:induction false} IndexObjectsLookup(index: KeyIndexMap, order: seq<RegObject>, k: String, x: RegObject)
    requires NoDup(order)
    ensures Lookup(IndexObjects(index, order), k, x) ==
      if x in order then Lookup(index, k, x) + KeyAttrs(x.Data, k) else Lookup(index, k, x)
    decreases |order|
  {
    if |order| > 0 {
      var i := |order| - 1;
      assert NoDup(order[..i]);
      IndexObjectsLookup(index, order[..i], k, x);
      IndexAttrsSpec(IndexObjects(index, order[..i]), order[i], order[i].Data, k, x);
      assert order == order[..i] + [order[i]];
      assert order[i] !in order[..i];
    }
  }

  /** order lists the objects of objs, each once. */
  ghost predicate Listed(order: seq<RegObject>, objs: set<RegObject>)
  {
    && NoDup(order)
    && (forall x :: x in order ==> x in objs)
    && (forall x :: x in objs ==> x in order)
  }

  lemma ListedStep(order: seq<RegObject>, objs: set<RegObject>, x: RegObject)
    requires Listed(order, objs) && x !in objs
    ensures Listed(order + [x], objs + {x})
  {
    assert forall y :: y in order + [x] ==> y in order || y == x;
  }

  /** The objects that have an entry under some key of index. */
  function Mentioned(index: KeyIndexMap): set<RegObject>
  {
    set k, x | k in index && x in index[k] :: x
  }

  /**
   * index is index0 with the attributes of each object of objs appended to
   * its entries, key by key, and no other entry changed.  Only objects with
   * an entry in either index, or in objs, are considered: every other object
   * has no entry in either.
   */
  ghost predicate IndexedFrom(index: KeyIndexMap, index0: KeyIndexMap, objs: set<RegObject>)
  {
    forall k, x {:trigger Lookup(index, k, x)} :: x in Mentioned(index) + Mentioned(index0) + objs ==>
      Lookup(index, k, x) == if x in objs then Lookup(index0, k, x) + KeyAttrs(x.Data, k) else Lookup(index0, k, x)
  }

  lemma IndexObjectsFrom(index0: KeyIndexMap, order: seq<RegObject>, objs: set<RegObject>)
    requires Listed(order, objs)
    ensures IndexedFrom(IndexObjects(index0, order), index0, objs)
  {
    forall k, x | x in Mentioned(IndexObjects(index0, order)) + Mentioned(index0) + objs
      ensures Lookup(IndexObjects(index0, order), k, x) == if x in objs then Lookup(index0, k, x) + KeyAttrs(x.Data, k) else Lookup(index0, k, x)
    {
      IndexObjectsLookup(index0, order, k, x);
    }
  }

  /** What IndexedFrom says of the objects it considers holds of every object. */
  lemma IndexedFromLookup(index: KeyIndexMap, index0: KeyIndexMap, objs: set<RegObject>, k: String, x: RegObject)
    requires IndexedFrom(index, index0, objs)
    ensures Lookup(index, k, x) == if x in objs then Lookup(index0, k, x) + KeyAttrs(x.Data, k) else Lookup(index0, k, x)
  {
    if k in index && x in index[k] {
      assert x in Mentioned(index);
    }
    if k in index0 && x in index0[k] {
      assert x in Mentioned(index0);
    }
  }

  /** What Indexed says of each lookup in the key index of each type. */
  lemma IndexedLookups(after: map<String, KeyIndexMap>, before: map<String, KeyIndexMap>, types: map<String, RegType>)
    requires Indexed(after, types, types.Keys, before)
    ensures forall t, k, x {:trigger Lookup(after[t], k, x)} :: t in after ==> (t in before && Lookup(after[t], k, x) ==
      if t in types && x in types[t].Objects.Values then Lookup(before[t], k, x) + KeyAttrs(x.Data, k) else Lookup(before[t], k, x))
  {
    forall t, k, x | t in after
      ensures t in before && Lookup(after[t], k, x) ==
        if t in types && x in types[t].Objects.Values then Lookup(before[t], k, x) + KeyAttrs(x.Data, k) else Lookup(before[t], k, x)
    {
      if t in types {
        IndexedFromLookup(after[t], before[t], types[t].Objects.Values, k, x);
      }
    }
  }

  /** Every attribute of the objects of objs holds its decoration under rels. */
  ghost predicate Decorated(objs: set<RegObject>, rels: Relations)
    reads set x, a | x in objs && a in x.Data :: a
  {
    forall x, a :: x in objs && a in x.Data ==> a.Value == Decoration(rels, a)
  }

  /** Each attribute of data holds its decorated value. */
  ghost predicate Valued(data: seq<RegAttribute>, rels: Relations)
    reads data
  {
    forall a :: a in data ==> a.Value == Decoration(rels, a)
  }

  /** The backlinks of each object of targets have grown from links1 by obj for each attribute of data that refers to it. */
  ghost predicate LinkedNow(rels: Relations, data: seq<RegAttribute>, targets: set<RegObject>, links1: map<RegObject, seq<RegObject>>, obj: RegObject)
    reads targets
  {
    forall T :: T in targets ==> T in links1 && T.Backlinks == LinkedFrom(rels, data, T, links1[T], obj)
  }

  /** Since the previous state, the backlinks of each object of targets have grown by obj for each attribute of data that refers to it. */
  twostate predicate Relinked(rels: Relations, data: seq<RegAttribute>, targets: set<RegObject>, obj: RegObject)
    reads targets
  {
    forall T :: T in targets ==> T.Backlinks == LinkedFrom(rels, data, T, old(T.Backlinks), obj)
  }

  /** The backlinks of each object of targets have grown from links0 by the objects of objs that refer to it. */
  ghost predicate LinkedSince(rels: Relations, targets: set<RegObject>, links0: map<RegObject, seq<RegObject>>, objs: set<RegObject>)
    reads targets
  {
    forall T :: T in targets ==> T in links0 && LinkedAll(rels, links0[T], T.Backlinks, objs, T)
  }

  /** Since the previous state, the backlinks of each object of targets have grown by the objects of objs that refer to it. */
  twostate predicate Grown(rels: Relations, targets: set<RegObject>, objs: set<RegObject>)
    reads targets
  {
    forall T :: T in targets ==> LinkedAll(rels, old(T.Backlinks), T.Backlinks, objs, T)
  }

  /**
   * links is links0 grown by the objects of objs that refer to target, and
   * by nothing else: links0 is kept as a prefix and no object is added twice.
   */
  ghost predicate LinkedAll(rels: Relations, links0: seq<RegObject>, links: seq<RegObject>, objs: set<RegObject>, target: RegObject)
  {
    && links0 <= links
    && (NoDup(links0) ==> NoDup(links))
    && (forall x :: x in links ==> x in links0 || (x in objs && Refers(rels, x.Data, target)))
    && (forall x :: x in objs && Refers(rels, x.Data, target) ==> x in links)
  }

  lemma LinkedAllStep(rels: Relations, links0: seq<RegObject>, links: seq<RegObject>, objs: set<RegObject>, obj: RegObject, target: RegObject)
    requires LinkedAll(rels, links0, links, objs, target)
    ensures LinkedAll(rels, links0, LinkedFrom(rels, obj.Data, target, links, obj), objs + {obj}, target)
  {
    WithLinkSpec(links, obj);
  }

  /** No object of the type has an attribute. */
  predicate Bare(rType: RegType)
  {
    forall x :: x in rType.Objects.Values ==> x.Data == []
  }

  /** Some object of one of the types done, under that type's relations, refers to target. */
  ghost predicate RefersFrom(rels: map<String, Relations>, types: map<String, RegType>, done: set<String>, x: RegObject, target: RegObject)
  {
    exists t :: t in done && t in rels && t in types && x in types[t].Objects.Values && Refers(rels[t], x.Data, target)
  }

  /**
   * LinkedAll across types: links is links0 grown by the objects of the
   * types done that refer to target under their type's relations, and by
   * nothing else.
   */
  ghost predicate LinkedTypes(rels: map<String, Relations>, types: map<String, RegType>, done: set<String>,
                              links0: seq<RegObject>, links: seq<RegObject>, target: RegObject)
  {
    && links0 <= links
    && (NoDup(links0) ==> NoDup(links))
    && (forall x :: x in links ==> x in links0 || RefersFrom(rels, types, done, x, target))
    && (forall t, x :: t in done && t in rels && t in types && x in types[t].Objects.Values && Refers(rels[t], x.Data, target) ==> x in links)
  }

  lemma LinkedTypesStep(rels: map<String, Relations>, types: map<String, RegType>, done: set<String>, t: String,
                        links0: seq<RegObject>, links1: seq<RegObject>, links2: seq<RegObject>, target: RegObject)
    requires t in rels && t in types
    requires LinkedTypes(rels, types, done, links0, links1, target)
    requires LinkedAll(rels[t], links1, links2, types[t].Objects.Values, target)
    ensures LinkedTypes(rels, types, done + {t}, links0, links2, target)
  {
    forall x | x in links2
      ensures x in links0 || RefersFrom(rels, types, done + {t}, x, target)
    {
      if x !in links1 {
        assert RefersFrom(rels, types, done + {t}, x, target) by {
          assert t in done + {t} && x in types[t].Objects.Values && Refers(rels[t], x.Data, target);
        }
      } else if x !in links0 {
        var u :| u in done && u in rels && u in types && x in types[u].Objects.Values && Refers(rels[u], x.Data, target);
        assert u in done + {t};
      }
    }
  }

  /** A type with no schema adds no backlinks. */
  lemma LinkedTypesSkip(rels: map<String, Relations>, types: map<String, RegType>, done: set<String>, t: String,
                        links0: seq<RegObject>, links: seq<RegObject>, target: RegObject)
    requires t !in rels
    requires LinkedTypes(rels, types, done, links0, links, target)
    ensures LinkedTypes(rels, types, done + {t}, links0, links, target)
  {
    forall x | x in links && x !in links0
      ensures RefersFrom(rels, types, done + {t}, x, target)
    {
      var u :| u in done && u in rels && u in types && x in types[u].Objects.Values && Refers(rels[u], x.Data, target);
      assert u in done + {t};
    }
  }

  /** The backlinks of target once the attributes of data, of object obj, are decorated, from links before. */
  function LinkedFrom(rels: Relations, data: seq<RegAttribute>, target: RegObject, links: seq<RegObject>, obj: RegObject): seq<RegObject>
  {
    if Refers(rels, data, target) then WithLink(links, obj) else links
  }

  lemma LinkedFromStep(rels: Relations, data: seq<RegAttribute>, i: nat, obj: RegObject)
    requires i < |data|
    ensures forall target, links :: (LinkedFrom(rels, data[..i + 1], target, links, obj) ==
      if Target(rels, data[i]) == Some(target) then WithLink(LinkedFrom(rels, data[..i], target, links, obj), obj)
      else LinkedFrom(rels, data[..i], target, links, obj))
  {
    forall target, links
      ensures LinkedFrom(rels, data[..i + 1], target, links, obj) ==
        if Target(rels, data[i]) == Some(target) then WithLink(LinkedFrom(rels, data[..i], target, links, obj), obj)
        else LinkedFrom(rels, data[..i], target, links, obj)
    {
      RefersStep(rels, data, i, target);
      WithLinkSpec(links, obj);
    }
  }

  lemma RefersStep(rels: Relations, data: seq<RegAttribute>, i: nat, target: RegObject)
    requires i < |data|
    ensures Refers(rels, data[..i + 1], target) <==> Refers(rels, data[..i], target) || Target(rels, data[i]) == Some(target)
  {
    assert data[..i + 1] == data[..i] + [data[i]];
  }

  // ---------------------------------------------------------------------
  // Attribute files

  /** Values start in this column of a registry file; keys end with ':' before it. */
  const ValueColumn: nat := 20

  /** strings.TrimRight(line, "\r\n"). */
  function TrimCrLf(s: String): (r: String)
    ensures |r| <= |s| && r == s[..|r|]
    ensures |r| == 0 || (r[|r| - 1] != '\r' && r[|r| - 1] != '\n')
  {
    if |s| > 0 && (s[|s| - 1] == '\r' || s[|s| - 1] == '\n') then TrimCrLf(s[..|s| - 1]) else s
  }

  /** What one line of an attribute file does to the attributes read so far. */
  datatype LineKind =
    | Blank                              // nothing left after trimming: runes[0] panics
    | Plus                               // '+': an empty line of the previous value
    | Short                              // no ':' before column 20, at most 20 characters: dropped
    | More(text: String)                 // no ':' before column 20: the previous value continues
    | Start(key: String, value: String)  // "key:" before column 20: a new attribute
    | Overrun                            // the byte offset of ':' is past the last character: runes[:ix] panics

  /** The number of bytes of c in UTF-8. */
  function Utf8Width(c: char): nat
  {
    if c as int < 0x80 then 1 else if c as int < 0x800 then 2 else if c as int < 0x1_0000 then 3 else 4
  }

  /** The number of bytes of s in UTF-8. */
  function Utf8Len(s: String): (n: nat)
    ensures n >= |s|
  {
    if |s| == 0 then 0 else Utf8Len(s[..|s| - 1]) + Utf8Width(s[|s| - 1])
  }

  /** Every character is ASCII. */
  predicate Ascii(s: String)
  {
    forall i :: 0 <= i < |s| ==> s[i] as int < 0x80
  }

  /** An ASCII text has one byte per character. */
  lemma {:induction false} AsciiUtf8Len(s: String)
    requires Ascii(s)
    ensures Utf8Len(s) == |s|
  {
    if |s| > 0 {
      AsciiUtf8Len(s[..|s| - 1]);
    }
  }

  /**
   * `strings.IndexByte(line, ':')`: the byte offset of the first ':' in the
   * UTF-8 text of line, -1 when there is none.  ':' is a single byte that
   * never occurs inside the encoding of another character.
   */
  function ColonByte(line: String): (ix: int)
    ensures ix == -1 <==> ':' !in line
    ensures ix >= IndexOf(line, ':')
  {
    var r := IndexOf(line, ':');
    if r == -1 then -1 else Utf8Len(line[..r])
  }

  /**
   * How loadAttributes reads one line of a file.  The line is a sequence of
   * characters (runes); the position of ':' is a byte offset, which is also
   * used as a character index for the key.
   */
  function Classify(raw: String): LineKind
  {
    var line := TrimCrLf(raw);
    if |line| == 0 then Blank
    else if line[0] == '+' then Plus
    else
      var ix := ColonByte(line);
      if ix == -1 || ix >= ValueColumn then
        if |line| <= ValueColumn then Short else More(line[ValueColumn..])
      else if ix > |line| then Overrun
      else
        Start(line[..ix], if |line| <= ValueColumn then "" else line[ValueColumn..])
  }

  /**
   * Before a ':' the byte offset and the character index differ as soon as
   * a character is not ASCII: "ü:" gives the key "ü:" with its colon, and
   * "üüü:" makes the loader panic.
   */
  lemma ClassifyWide()
    ensures Classify("\U{FC}:") == Start("\U{FC}:", "")
    ensures Classify("\U{FC}\U{FC}\U{FC}:") == Overrun
  {
    var one: String := "\U{FC}:";
    assert IndexOf(one, ':') == 1 && one[..1] == "\U{FC}";
    assert Utf8Len(one[..1]) == 2 by {
      assert one[..1][..0] == "";
    }
    var three: String := "\U{FC}\U{FC}\U{FC}:";
    assert IndexOf(three, ':') == 3 && three[..3] == "\U{FC}\U{FC}\U{FC}";
    assert Utf8Len(three[..3]) == 6 by {
      var w: String := three[..3];
      assert w[..2][..1][..0] == "";
      assert w[..2][..1] == "\U{FC}" && w[..2] == "\U{FC}\U{FC}";
    }
  }

  /** An attribute as read: its key and raw value. */
  datatype Entry = Entry(key: String, raw: String)

  /** The entries with text appended to the value of the last one. */
  function Amend(es: seq<Entry>, text: String): seq<Entry>
    requires |es| > 0
  {
    es[..|es| - 1] + [Entry(es[|es| - 1].key, es[|es| - 1].raw + text)]
  }

  /** The kind of every line, in order. */
  function Classified(lines: seq<String>): (r: seq<LineKind>)
    ensures |r| == |lines| && forall i :: 0 <= i < |lines| ==> r[i] == Classify(lines[i])
  {
    seq(|lines|, i requires 0 <= i < |lines| => Classify(lines[i]))
  }

  lemma ClassifiedAppend(a: seq<String>, b: seq<String>)
    ensures Classified(a + b) == Classified(a) + Classified(b)
  {
    assert forall i :: 0 <= i < |a| ==> (a + b)[i] == a[i];
    assert forall i :: |a| <= i < |a| + |b| ==> (a + b)[i] == b[i - |a|];
  }

  /** The entries after one more line of the given kind; None once the loader has panicked. */
  function Step(acc: Option<seq<Entry>>, kind: LineKind): Option<seq<Entry>>
  {
    match acc
    case None => None
    case Some(es) =>
      match kind
      case Blank => None
      case Plus => if |es| == 0 then None else Some(Amend(es, "\n"))
      case Short => Some(es)
      case More(text) => if |es| == 0 then None else Some(Amend(es, "\n" + text))
      case Start(k, v) => Some(es + [Entry(k, v)])
      case Overrun => None
  }

  /** The entries after reading lines of the given kinds from acc on. */
  function ParseFrom(acc: Option<seq<Entry>>, kinds: seq<LineKind>): Option<seq<Entry>>
    decreases |kinds|
  {
    if |kinds| == 0 then acc else ParseFrom(Step(acc, kinds[0]), kinds[1..])
  }

  /** What loadAttributes reads from the lines of a file; None where it panics. */
  function ParseAttributes(lines: seq<String>): Option<seq<Entry>>
  {
    ParseFrom(Some([]), Classified(lines))
  }

  /** Once panicked, the loader stays panicked. */
  lemma {:induction false} ParseFromNone(kinds: seq<LineKind>)
    ensures ParseFrom(None, kinds) == None
    decreases |kinds|
  {
    if |kinds| > 0 {
      ParseFromNone(kinds[1..]);
    }
  }

  /** Reading two runs of lines is reading the first, then the second from where it stopped. */
  lemma {:induction false} ParseFromAppend(acc: Option<seq<Entry>>, a: seq<LineKind>, b: seq<LineKind>)
    ensures ParseFrom(acc, a + b) == ParseFrom(ParseFrom(acc, a), b)
    decreases |a|
  {
    if |a| > 0 {
      assert (a + b)[1..] == a[1..] + b;
      ParseFromAppend(Step(acc, a[0]), a[1..], b);
    } else {
      assert a + b == b;
    }
  }

  /** Reading the lines from i on is reading line i, then the rest. */
  lemma ParseFromNext(acc: Option<seq<Entry>>, kinds: seq<LineKind>, i: nat)
    requires i < |kinds|
    ensures ParseFrom(acc, kinds[i..]) == ParseFrom(Step(acc, kinds[i]), kinds[i + 1..])
  {
    assert kinds[i..][1..] == kinds[i + 1..];
  }

  /**
   * loadAttributes over the lines of one file: each line starts a new
   * attribute, extends the value of the previous one, or is dropped.
   * ok is false where the source panics: an empty line, a continuation
   * before any attribute, or a ':' whose byte offset lies past the line's
   * last character.
   */
  method LoadAttributes(lines: seq<String>, ghost typeName: String) returns (attributes: seq<RegAttribute>, ok: bool)
    ensures ok <==> ParseAttributes(lines).Some?
    ensures ok ==> |attributes| == |ParseAttributes(lines).value|
    ensures ok ==> forall j :: 0 <= j < |attributes| ==>
      attributes[j].Key == ParseAttributes(lines).value[j].key && attributes[j].RawValue == ParseAttributes(lines).value[j].raw
    ensures forall j :: 0 <= j < |attributes| ==> fresh(attributes[j]) && attributes[j].Value == "" && attributes[j].Type == typeName
  {
    ghost var kinds := Classified(lines);
    var es: seq<Entry> := [];
    for i := 0 to |lines|
      invariant ParseFrom(Some(es), kinds[i..]) == ParseAttributes(lines)
    {
      ParseFromNext(Some(es), kinds, i);
      var kind := Classify(lines[i]);
      match kind
      case Blank =>
        ParseFromNone(kinds[i + 1..]);
        return [], false;
      case Plus =>
        if |es| == 0 {
          ParseFromNone(kinds[i + 1..]);
          return [], false;
        }
        es := Amend(es, "\n");
      case Short =>
      case More(text) =>
        if |es| == 0 {
          ParseFromNone(kinds[i + 1..]);
          return [], false;
        }
        es := Amend(es, "\n" + text);
      case Start(k, v) =>
        es := es + [Entry(k, v)];
      case Overrun =>
        ParseFromNone(kinds[i + 1..]);
        return [], false;
    }
    attributes := [];
    for j := 0 to |es|
      invariant |attributes| == j
      invariant forall m :: 0 <= m < j ==> attributes[m].Key == es[m].key && attributes[m].RawValue == es[m].raw
      invariant forall m :: 0 <= m < j ==> fresh(attributes[m]) && attributes[m].Value == "" && attributes[m].Type == typeName
    {
      var a := new RegAttribute(es[j].key, es[j].raw, typeName);
      attributes := attributes + [a];
    }
    ok := true;
  }

  // ---------------------------------------------------------------------
  // The file format the loader reads back

  function Spaces(n: nat): (r: String)
    ensures |r| == n && forall i :: 0 <= i < n ==> r[i] == ' '
  {
    seq(n, i => ' ')
  }

  /** The first line of an attribute in a registry file: "key:" padded to the value column, then the first value line. */
  function FirstLine(key: String, v: String): String
    requires |key| < ValueColumn
  {
    key + ":" + Spaces(ValueColumn - 1 - |key|) + v
  }

  /** A further value line: "+" when empty, otherwise indented to the value column. */
  function MoreLine(v: String): String
  {
    if |v| == 0 then "+" else Spaces(ValueColumn) + v
  }

  function MoreLines(parts: seq<String>): (r: seq<String>)
    ensures |r| == |parts|
  {
    if |parts| == 0 then [] else MoreLines(parts[..|parts| - 1]) + [MoreLine(parts[|parts| - 1])]
  }

  /** How the loader reads a further value line. */
  function MoreKind(v: String): LineKind
  {
    if |v| == 0 then Plus else More(v)
  }

  function MoreKinds(parts: seq<String>): (r: seq<LineKind>)
    ensures |r| == |parts|
  {
    if |parts| == 0 then [] else MoreKinds(parts[..|parts| - 1]) + [MoreKind(parts[|parts| - 1])]
  }

  /** A value line survives the loader's trimming of "\r" and "\n". */
  predicate Untrimmed(v: String)
  {
    |v| == 0 || (v[|v| - 1] != '\r' && v[|v| - 1] != '\n')
  }

  /** An entry the file format can hold: an ASCII key without ':' that ends before the value column and does not start with '+'. */
  predicate Writable(e: Entry)
  {
    ':' !in e.key && |e.key| < ValueColumn && (|e.key| == 0 || e.key[0] != '+') && Ascii(e.key)
    && forall p :: p in Split(e.raw, '\n') ==> Untrimmed(p)
  }

  /** The lines that hold one attribute. */
  function RenderEntry(e: Entry): seq<String>
    requires Writable(e)
  {
    var parts := Split(e.raw, '\n');
    [FirstLine(e.key, parts[0])] + MoreLines(parts[1..])
  }

  /** The lines of a registry file holding the entries in order. */
  function Render(es: seq<Entry>): seq<String>
    requires forall e :: e in es ==> Writable(e)
  {
    if |es| == 0 then [] else Render(es[..|es| - 1]) + RenderEntry(es[|es| - 1])
  }

  /** The loader's trimming leaves a line alone that ends in neither "\r" nor "\n". */
  lemma TrimCrLfKeeps(line: String)
    requires Untrimmed(line)
    ensures TrimCrLf(line) == line
  {
  }

  /** A line with "key:" before the value column starts an attribute. */
  lemma ClassifyStart(line: String, ix: nat)
    requires Untrimmed(line) && |line| >= ValueColumn && line[0] != '+'
    requires ix < ValueColumn && IndexOf(line, ':') == ix && Ascii(line[..ix])
    ensures Classify(line) == Start(line[..ix], line[ValueColumn..])
  {
    TrimCrLfKeeps(line);
    AsciiUtf8Len(line[..ix]);
  }

  /** The first line of an attribute starts it, with the key and the first value line. */
  lemma FirstLineStarts(key: String, v: String)
    requires ':' !in key && |key| < ValueColumn && (|key| == 0 || key[0] != '+') && Ascii(key)
    requires Untrimmed(v)
    ensures Classify(FirstLine(key, v)) == Start(key, v)
  {
    var line := FirstLine(key, v);
    var pad := Spaces(ValueColumn - 1 - |key|);
    var rest := pad + v;
    assert line == key + [':'] + rest;
    assert Untrimmed(line) by {
      if |v| == 0 {
        assert line[|line| - 1] == if |pad| == 0 then ':' else ' ';
      } else {
        assert line[|line| - 1] == v[|v| - 1];
      }
    }
    assert line[0] != '+' by {
      if |key| > 0 {
        assert line[0] == key[0];
      }
    }
    IndexOfAfter(key, rest, ':');
    assert line[..|key|] == key;
    assert line[ValueColumn..] == v;
    ClassifyStart(line, |key|);
  }

  /** A further value line reads back as a continuation with its text. */
  lemma MoreLineContinues(v: String)
    requires Untrimmed(v)
    ensures Classify(MoreLine(v)) == MoreKind(v)
  {
    if |v| > 0 {
      var line := MoreLine(v);
      assert line[|line| - 1] == v[|v| - 1];
      assert TrimCrLf(line) == line;
      assert line[0] == ' ';
      var ix := IndexOf(line, ':');
      assert ix == -1 || ix >= ValueColumn;
      assert line[ValueColumn..] == v;
    }
  }

  lemma {:induction false} MoreLinesContinue(parts: seq<String>)
    requires forall p :: p in parts ==> Untrimmed(p)
    ensures Classified(MoreLines(parts)) == MoreKinds(parts)
    decreases |parts|
  {
    if |parts| > 0 {
      var n := |parts| - 1;
      assert forall p :: p in parts[..n] ==> p in parts;
      MoreLinesContinue(parts[..n]);
      ClassifiedAppend(MoreLines(parts[..n]), [MoreLine(parts[n])]);
      assert parts[n] in parts;
      MoreLineContinues(parts[n]);
    }
  }

  /** The further value lines rebuild the whole multi-line value. */
  lemma {:induction false} MoreKindsExtend(acc: seq<Entry>, key: String, first: String, parts: seq<String>)
    ensures ParseFrom(Some(acc + [Entry(key, first)]), MoreKinds(parts)) == Some(acc + [Entry(key, Join([first] + parts, '\n'))])
    decreases |parts|
  {
    if |parts| == 0 {
      assert [first] + parts == [first];
    } else {
      var n := |parts| - 1;
      var front := parts[..n];
      MoreKindsExtend(acc, key, first, front);
      ParseFromAppend(Some(acc + [Entry(key, first)]), MoreKinds(front), [MoreKind(parts[n])]);
      var mid := acc + [Entry(key, Join([first] + front, '\n'))];
      assert ([first] + parts)[..|[first] + parts| - 1] == [first] + front;
      assert Join([first] + parts, '\n') == Join([first] + front, '\n') + ("\n" + parts[n]);
      assert mid[..|mid| - 1] == acc;
      assert Step(Some(mid), MoreKind(parts[n])) == Some(Amend(mid, "\n" + parts[n])) by {
        if |parts[n]| == 0 {
          assert "\n" + parts[n] == "\n";
        }
      }
    }
  }

  /** How the loader reads the lines of one attribute. */
  function EntryKinds(e: Entry): seq<LineKind>
    requires Writable(e)
  {
    var parts := Split(e.raw, '\n');
    [Start(e.key, parts[0])] + MoreKinds(parts[1..])
  }

  /** How the loader reads the lines of a file holding the entries. */
  function Kinds(es: seq<Entry>): seq<LineKind>
    requires forall e :: e in es ==> Writable(e)
  {
    if |es| == 0 then [] else Kinds(es[..|es| - 1]) + EntryKinds(es[|es| - 1])
  }

  /** Each rendered line is read as the kind the format means it to be. */
  lemma RenderEntryClassified(e: Entry)
    requires Writable(e)
    ensures Classified(RenderEntry(e)) == EntryKinds(e)
  {
    var parts := Split(e.raw, '\n');
    assert parts[0] in parts;
    assert forall p :: p in parts[1..] ==> p in parts;
    LinesClassified(e.key, parts[0], parts[1..]);
  }

  lemma LinesClassified(key: String, first: String, rest: seq<String>)
    requires ':' !in key && |key| < ValueColumn && (|key| == 0 || key[0] != '+') && Ascii(key)
    requires Untrimmed(first) && forall p :: p in rest ==> Untrimmed(p)
    ensures Classified([FirstLine(key, first)] + MoreLines(rest)) == [Start(key, first)] + MoreKinds(rest)
  {
    FirstLineStarts(key, first);
    MoreLinesContinue(rest);
    ClassifiedAppend([FirstLine(key, first)], MoreLines(rest));
  }

  lemma {:induction false} RenderClassified(es: seq<Entry>)
    requires forall e :: e in es ==> Writable(e)
    ensures Classified(Render(es)) == Kinds(es)
    decreases |es|
  {
    if |es| > 0 {
      var n := |es| - 1;
      assert forall e :: e in es[..n] ==> e in es;
      RenderClassified(es[..n]);
      ClassifiedAppend(Render(es[..n]), RenderEntry(es[n]));
      assert es[n] in es;
      RenderEntryClassified(es[n]);
    }
  }

  /** The kinds of one attribute's lines rebuild that attribute. */
  lemma EntryKindsRead(acc: seq<Entry>, e: Entry)
    requires Writable(e)
    ensures ParseFrom(Some(acc), EntryKinds(e)) == Some(acc + [e])
  {
    var parts := Split(e.raw, '\n');
    ParseFromAppend(Some(acc), [Start(e.key, parts[0])], MoreKinds(parts[1..]));
    MoreKindsExtend(acc, e.key, parts[0], parts[1..]);
    assert [parts[0]] + parts[1..] == parts;
  }

  lemma {:induction false} KindsRead(es: seq<Entry>)
    requires forall e :: e in es ==> Writable(e)
    ensures ParseFrom(Some([]), Kinds(es)) == Some(es)
    decreases |es|
  {
    if |es| > 0 {
      var n := |es| - 1;
      assert forall e :: e in es[..n] ==> e in es;
      KindsRead(es[..n]);
      assert es[n] in es;
      assert Kinds(es) == Kinds(es[..n]) + EntryKinds(es[n]);
      ParseFromAppend(Some([]), Kinds(es[..n]), EntryKinds(es[n]));
      EntryKindsRead(es[..n], es[n]);
      assert es[..n] + [es[n]] == es;
    }
  }

  /** loadAttributes reads back exactly the attributes of a file written in the registry's column format. */
  lemma RenderRoundTrip(es: seq<Entry>)
    requires forall e :: e in es ==> Writable(e)
    ensures ParseAttributes(Render(es)) == Some(es)
  {
    RenderClassified(es);
    KindsRead(es);
  }

  // ---------------------------------------------------------------------
  // Schema

  /** The raw values of the attributes, in order. */
  function RawsOf(attrs: seq<RegAttribute>): (r: seq<String>)
    ensures |r| == |attrs| && forall i :: 0 <= i < |attrs| ==> r[i] == attrs[i].RawValue
  {
    if |attrs| == 0 then [] else RawsOf(attrs[..|attrs| - 1]) + [attrs[|attrs| - 1].RawValue]
  }

  /** The type a schema object describes: its single "ref" value without the "dn42." prefix. */
  function SchemaName(obj: RegObject): Option<String>
  {
    var refs := KeyAttrs(obj.Data, "ref");
    if |refs| == 1 then Some(TrimPrefix(refs[0].RawValue, "dn42."))
    else None
  }

  /** The words of each value, in order (strings.Fields). */
  function WordsOf(raws: seq<String>): seq<seq<String>>
  {
    seq(|raws|, i requires 0 <= i < |raws| => Fields(raws[i]))
  }

  /** The words of each "key" value of a schema object. */
  function KeyWords(obj: RegObject): seq<seq<String>>
  {
    WordsOf(RawsOf(KeyAttrs(obj.Data, "key")))
  }

  /**
   * The keys a schema names, each with the words after its name, from the
   * words of its "key" values; a later key of the same name replaces an
   * earlier one.  None where fields[0] panics on a value with no words.
   */
  function KeyFieldMap(ws: seq<seq<String>>): Option<map<String, seq<String>>>
  {
    if |ws| == 0 then Some(map[])
    else
      match KeyFieldMap(ws[..|ws| - 1])
      case None => None
      case Some(m) =>
        var fields := ws[|ws| - 1];
        if |fields| == 0 then None else Some(m[fields[0] := fields[1..]])
  }

  /** One more "key" value adds its key to the map, or fails on a value with no words. */
  lemma KeyFieldMapStep(ws: seq<seq<String>>, i: nat)
    requires i < |ws|
    ensures KeyFieldMap(ws[..i + 1]) ==
      if KeyFieldMap(ws[..i]).None? || |ws[i]| == 0 then None
      else Some(KeyFieldMap(ws[..i]).value[ws[i][0] := ws[i][1..]])
  {
    assert ws[..i + 1][..i] == ws[..i];
  }

  /** The key a "key" value names: its first word. */
  predicate Names(w: seq<String>, k: String)
  {
    |w| > 0 && w[0] == k
  }

  /** The key map exists exactly when every "key" value has a word, and then its keys are the first words. */
  lemma {:induction false} KeyFieldMapKeys(ws: seq<seq<String>>)
    ensures KeyFieldMap(ws).Some? <==> forall i :: 0 <= i < |ws| ==> |ws[i]| > 0
    ensures KeyFieldMap(ws).Some? ==> forall k :: k in KeyFieldMap(ws).value <==> exists i :: 0 <= i < |ws| && Names(ws[i], k)
    decreases |ws|
  {
    if |ws| > 0 {
      var n := |ws| - 1;
      var front := ws[..n];
      KeyFieldMapKeys(front);
      assert forall i :: 0 <= i < n ==> front[i] == ws[i];
      if KeyFieldMap(ws).Some? {
        var m := KeyFieldMap(front).value;
        forall k
          ensures k in KeyFieldMap(ws).value <==> exists i :: 0 <= i < |ws| && Names(ws[i], k)
        {
          if k in m {
            var i :| 0 <= i < n && Names(front[i], k);
            assert Names(ws[i], k);
          }
          if k != ws[n][0] && exists i :: 0 <= i < |ws| && Names(ws[i], k) {
            var i :| 0 <= i < |ws| && Names(ws[i], k);
            assert i < n && Names(front[i], k);
          }
        }
      }
    }
  }

  /** Each key maps to the words after the last "key" value that names it. */
  lemma {:induction false} KeyFieldMapLast(ws: seq<seq<String>>, i: nat)
    requires KeyFieldMap(ws).Some? && i < |ws| && |ws[i]| > 0
    requires forall j :: i < j < |ws| ==> !Names(ws[j], ws[i][0])
    ensures ws[i][0] in KeyFieldMap(ws).value && KeyFieldMap(ws).value[ws[i][0]] == ws[i][1..]
    decreases |ws|
  {
    var n := |ws| - 1;
    if i < n {
      var front := ws[..n];
      assert front[i] == ws[i];
      assert forall j :: i < j < n ==> front[j] == ws[j];
      KeyFieldMapLast(front, i);
    }
  }

  /** The first field that names the types a key looks up. */
  function LookupField(fields: seq<String>): Option<String>
  {
    if |fields| == 0 then None
    else if HasPrefix(fields[0], "lookup=") then Some(fields[0])
    else LookupField(fields[1..])
  }

  /** The first "lookup=" field is the one LookupField finds. */
  lemma {:induction false} LookupFieldAt(fields: seq<String>, i: nat)
    requires i < |fields| && HasPrefix(fields[i], "lookup=")
    requires forall j :: 0 <= j < i ==> !HasPrefix(fields[j], "lookup=")
    ensures LookupField(fields) == Some(fields[i])
    decreases i
  {
    if i > 0 {
      assert forall j :: 0 <= j < i - 1 ==> fields[1..][j] == fields[j + 1];
      LookupFieldAt(fields[1..], i - 1);
    }
  }

  /** LookupField finds the first "lookup=" field, and None when there is none. */
  lemma {:induction false} LookupFieldSpec(fields: seq<String>)
    ensures LookupField(fields).None? <==> forall i :: 0 <= i < |fields| ==> !HasPrefix(fields[i], "lookup=")
    ensures LookupField(fields).Some? ==>
      exists i :: (0 <= i < |fields| && fields[i] == LookupField(fields).value && HasPrefix(fields[i], "lookup=")
        && forall j :: 0 <= j < i ==> !HasPrefix(fields[j], "lookup="))
    decreases |fields|
  {
    if |fields| > 0 && !HasPrefix(fields[0], "lookup=") {
      LookupFieldSpec(fields[1..]);
      if LookupField(fields).Some? {
        var i :| 0 <= i < |fields[1..]| && fields[1..][i] == LookupField(fields).value
          && HasPrefix(fields[1..][i], "lookup=") && forall j :: 0 <= j < i ==> !HasPrefix(fields[1..][j], "lookup=");
        assert fields[i + 1] == LookupField(fields).value;
        forall j | 0 <= j < i + 1
          ensures !HasPrefix(fields[j], "lookup=")
        {
          if j > 0 {
            assert fields[j] == fields[1..][j - 1];
          }
        }
      } else {
        forall i | 0 <= i < |fields|
          ensures !HasPrefix(fields[i], "lookup=")
        {
          if i > 0 {
            assert fields[i] == fields[1..][i - 1];
          }
        }
      }
    }
  }

  /** The existing types among the names of a lookup, in order; names may carry the "dn42." prefix. */
  function RelTypes(names: seq<String>, types: map<String, RegType>): seq<RegType>
  {
    if |names| == 0 then []
    else
      var rel := TrimPrefix(names[|names| - 1], "dn42.");
      RelTypes(names[..|names| - 1], types) + (if rel in types then [types[rel]] else [])
  }

  /** A related type is exactly a type some name of the lookup names; unknown names are skipped. */
  lemma {:induction false} RelTypesSpec(names: seq<String>, types: map<String, RegType>)
    ensures forall r :: r in RelTypes(names, types) <==>
      exists i :: 0 <= i < |names| && TrimPrefix(names[i], "dn42.") in types && types[TrimPrefix(names[i], "dn42.")] == r
    ensures |RelTypes(names, types)| <= |names|
    decreases |names|
  {
    if |names| > 0 {
      var n := |names| - 1;
      RelTypesSpec(names[..n], types);
      forall r
        ensures r in RelTypes(names, types) <==>
          exists i :: 0 <= i < |names| && TrimPrefix(names[i], "dn42.") in types && types[TrimPrefix(names[i], "dn42.")] == r
      {
        if exists i :: 0 <= i < |names| && TrimPrefix(names[i], "dn42.") in types && types[TrimPrefix(names[i], "dn42.")] == r {
          var i :| 0 <= i < |names| && TrimPrefix(names[i], "dn42.") in types && types[TrimPrefix(names[i], "dn42.")] == r;
          if i < n {
            assert names[..n][i] == names[i];
          }
        }
        if r in RelTypes(names[..n], types) {
          var i :| 0 <= i < n && TrimPrefix(names[..n][i], "dn42.") in types && types[TrimPrefix(names[..n][i], "dn42.")] == r;
          assert names[i] == names[..n][i];
        }
      }
    }
  }

  /** The relations of a key with these fields: the types named by its first "lookup=" field, comma separated. */
  function Lookups(fields: seq<String>, types: map<String, RegType>): seq<RegType>
  {
    match LookupField(fields)
    case None => []
    case Some(f) => RelTypes(Split(TrimPrefix(f, "lookup="), ','), types)
  }

  /** The words after each key name of a schema. */
  function FieldsOf(attributes: map<String, RegAttributeSchema>): map<String, seq<String>>
  {
    map k | k in attributes :: attributes[k].Fields
  }

  lemma FieldsOfUpdate(attributes: map<String, RegAttributeSchema>, k: String, a: RegAttributeSchema)
    ensures FieldsOf(attributes[k := a]) == FieldsOf(attributes)[k := a.Fields]
  {
  }

  // ---------------------------------------------------------------------
  // Refresh interval

  /** Ten minutes as a Go time.Duration (nanoseconds). */
  const MinRefresh: int := 600_000_000_000

  /** InitialiseRegistryData enforces a minimum refresh interval of ten minutes. */
  function ClampRefresh(refresh: int): (r: int)
    ensures r >= MinRefresh && r >= refresh
    ensures r == refresh || r == MinRefresh
  {
    if refresh < MinRefresh then MinRefresh else refresh
  }
}
