// The registry's JSON API (regapi.go): which types and objects a request
// selects, and the shape of the responses built from them.  The handlers
// read the registry and change nothing; an HTTP 404 is a NotFound reply.
module RegApi {

  import opened Wrappers
  import opened Text
  import opened Seqs
  import opened Registry

  /** A handler's outcome: a 404 with its message, or the JSON body. */
  datatype Reply<T> = NotFound(message: String) | Found(body: T)

  /** One [2]string of an object's attribute list: the key and a value. */
  datatype Pair = Pair(key: String, value: String)

  /** RegObjectResponse: the decorated attributes and the references of the backlinks. */
  datatype ObjectResponse = ObjectResponse(attributes: seq<Pair>, backlinks: seq<String>)

  /** The body of an object request: decorated, or with the raw values only. */
  datatype ObjectsBody = Decorated(objects: map<String, ObjectResponse>) | Raw(raw: map<String, seq<Pair>>)

  // ---------------------------------------------------------------------
  // The registry as the handlers see it

  /** Each key once, in some order: an order Go's iteration over a map may take. */
  predicate Enumerates(order: seq<String>, keys: set<String>)
  {
    NoDup(order) && (forall k :: k in order ==> k in keys) && (forall k :: k in keys ==> k in order)
  }

  /** The registry's types are keyed by their Ref. */
  predicate TypesKeyed(types: map<String, RegType>)
  {
    forall t :: t in types ==> types[t].Ref == t
  }

  /** A type's objects are keyed by name, each with the reference "type/name". */
  predicate ObjectsKeyed(t: String, objects: map<String, RegObject>)
  {
    forall o :: o in objects ==> objects[o].Ref == MakePath(t, o)
  }

  /** Ranging over a map: its keys, each once, in an order the model does not fix. */
  method KeysOf<V>(m: map<String, V>) returns (order: seq<String>)
    ensures Enumerates(order, m.Keys)
  {
    order := [];
    var rest := m.Keys;
    while rest != {}
      invariant rest <= m.Keys && NoDup(order)
      invariant forall k :: k in m.Keys <==> k in rest || k in order
      invariant forall k :: k in rest ==> k !in order
      decreases rest
    {
      var k :| k in rest;
      order := order + [k];
      rest := rest - {k};
    }
  }

  // ---------------------------------------------------------------------
  // Selection

  /**
   * The names a request selects from m: all of them for "*"; with a match
   * parameter (whatever its value), those whose lower-cased name contains
   * the lower-cased request; otherwise the name itself, or None (a 404)
   * when m has no such key.
   */
  function Selection<V>(m: map<String, V>, name: String, matching: bool): (r: Option<set<String>>)
    ensures r.Some? ==> r.value <= m.Keys
  {
    if name == "*" then Some(m.Keys)
    else if !matching then (if name in m then Some({name}) else None)
    else Some(set k | k in m && Contains(Lower(k), Lower(name)))
  }

  /** A name is selected by the substring match too: asking to match only widens an exact request. */
  lemma SelectionWidens<V>(m: map<String, V>, name: String)
    requires Selection(m, name, false).Some?
    ensures Selection(m, name, true).Some? && Selection(m, name, false).value <= Selection(m, name, true).value
  {
    if name != "*" {
      assert Lower(name)[..|Lower(name)|] == Lower(name);
      assert HasPrefix(Lower(name), Lower(name));
    }
  }

  /** The keep test of the substring loops: everything for "*", else containment of the lower-cased name. */
  predicate Kept(all: bool, lname: String, k: String)
  {
    all || Contains(Lower(k), lname)
  }

  /** The filter loops of regTypeHandler and regObjectHandler: the keys that pass, in iteration order, and their values. */
  method SelectFrom<V>(m: map<String, V>, order: seq<String>, all: bool, lname: String) returns (keys: seq<String>, values: seq<V>)
    requires forall k :: k in order ==> k in m
    ensures forall k :: k in keys <==> k in order && Kept(all, lname, k)
    ensures forall k :: k in keys ==> k in m
    ensures |values| == |keys| && forall j :: 0 <= j < |keys| ==> values[j] == m[keys[j]]
  {
    keys, values := [], [];
    for i := 0 to |order|
      invariant forall k :: k in keys <==> k in order[..i] && Kept(all, lname, k)
      invariant |values| == |keys|
      invariant forall k :: k in keys ==> k in m
      invariant forall j :: 0 <= j < |keys| ==> values[j] == m[keys[j]]
    {
      assert order[..i + 1] == order[..i] + [order[i]];
      var key := order[i];
      if Kept(all, lname, key) {
        ghost var keys0, values0 := keys, values;
        keys, values := keys + [key], values + [m[key]];
        assert forall j :: 0 <= j < |keys0| ==> keys[j] == keys0[j] && values[j] == values0[j];
      }
    }
    assert order[..|order|] == order;
  }

  /**
   * The selection step shared by regTypeHandler and regObjectHandler: "*"
   * turns on the match and selects everything; with a match, the filter
   * loop over the map; otherwise the exact lookup, which fails (a 404) for
   * a missing name.
   */
  method Select<V>(m: map<String, V>, name: String, matching: bool) returns (found: bool, keys: seq<String>, values: seq<V>)
    ensures found <==> Selection(m, name, matching).Some?
    ensures found ==> forall k :: k in keys <==> k in Selection(m, name, matching).value
    ensures forall k :: k in keys ==> k in m
    ensures |values| == |keys| && forall j :: 0 <= j < |keys| ==> values[j] == m[keys[j]]
  {
    var matched := matching;
    var all := false;
    if name == "*" {
      matched, all := true, true;
    }
    if !matched {
      if name !in m {
        return false, [], [];
      }
      return true, [name], [m[name]];
    }
    var lname := Lower(name);
    var order := KeysOf(m);
    keys, values := SelectFrom(m, order, all, lname);
    found := true;
  }

  // ---------------------------------------------------------------------
  // Handlers

  /** regRootHandler: the number of objects of each type. */
  method RegRoot(types: map<String, RegType>) returns (response: map<String, int>)
    requires TypesKeyed(types)
    ensures response.Keys == types.Keys
    ensures forall t :: t in types ==> response[t] == |types[t].Objects|
  {
    response := map[];
    var order := KeysOf(types);
    for i := 0 to |order|
      invariant forall t :: t in response <==> t in order[..i]
      invariant forall t :: t in response ==> response[t] == |types[t].Objects|
    {
      assert order[..i + 1] == order[..i] + [order[i]];
      var rType := types[order[i]];
      response := response[rType.Ref := |rType.Objects|];
    }
    assert order[..|order|] == order;
  }

  /** The type response: for each selected type, the names of its objects in some order. */
  method TypeResponse(types: map<String, RegType>, keys: seq<String>, results: seq<RegType>) returns (response: map<String, seq<String>>)
    requires TypesKeyed(types) && |results| == |keys|
    requires forall j :: 0 <= j < |keys| ==> keys[j] in types && results[j] == types[keys[j]]
    ensures forall t :: t in response <==> t in keys
    ensures forall t :: t in response ==> Enumerates(response[t], types[t].Objects.Keys)
  {
    response := map[];
    for i := 0 to |results|
      invariant forall t :: t in response <==> t in keys[..i]
      invariant forall t :: t in response ==> t in types && Enumerates(response[t], types[t].Objects.Keys)
    {
      assert keys[..i + 1] == keys[..i] + [keys[i]];
      var rType := results[i];
      var objects := KeysOf(rType.Objects);
      response := response[rType.Ref := objects];
    }
    assert keys[..|keys|] == keys;
  }

  /**
   * regTypeHandler: the types the request selects, each with the names of
   * its objects; a 404 when an exact request names no type.  matching says
   * whether the request carries a match parameter.
   */
  method RegTypeHandler(types: map<String, RegType>, typeName: String, matching: bool) returns (reply: Reply<map<String, seq<String>>>)
    requires TypesKeyed(types)
    ensures reply.NotFound? <==> Selection(types, typeName, matching).None?
    ensures reply.NotFound? ==> reply.message == "No types matching '" + typeName + "' found"
    ensures reply.Found? ==> reply.body.Keys == Selection(types, typeName, matching).value
    ensures reply.Found? ==> forall t :: t in reply.body ==> Enumerates(reply.body[t], types[t].Objects.Keys)
  {
    var found, keys, results := Select(types, typeName, matching);
    if !found {
      return NotFound("No types matching '" + typeName + "' found");
    }
    var response := TypeResponse(types, keys, results);
    return Found(response);
  }

  /** The decorated pairs of an object's attributes, in order. */
  predicate ValuesOf(pairs: seq<Pair>, data: seq<RegAttribute>)
    reads data
  {
    |pairs| == |data| && forall i :: 0 <= i < |data| ==> pairs[i] == Pair(data[i].Key, data[i].Value)
  }

  /** The raw pairs of an object's attributes, in order. */
  predicate RawValuesOf(pairs: seq<Pair>, data: seq<RegAttribute>)
  {
    |pairs| == |data| && forall i :: 0 <= i < |data| ==> pairs[i] == Pair(data[i].Key, data[i].RawValue)
  }

  /** The references of objects, in order. */
  predicate RefsOf(refs: seq<String>, objs: seq<RegObject>)
  {
    |refs| == |objs| && forall i :: 0 <= i < |objs| ==> refs[i] == objs[i].Ref
  }

  /** The attribute copy of the decorated response: make([][2]string, n) filled by index. */
  method CopyValues(data: seq<RegAttribute>) returns (pairs: seq<Pair>)
    ensures ValuesOf(pairs, data)
  {
    var attributes := new Pair[|data|];
    for ix := 0 to |data|
      invariant forall i :: 0 <= i < ix ==> attributes[i] == Pair(data[i].Key, data[i].Value)
    {
      attributes[ix] := Pair(data[ix].Key, data[ix].Value);
    }
    pairs := attributes[..];
  }

  /** The attribute copy of the raw response. */
  method CopyRawValues(data: seq<RegAttribute>) returns (pairs: seq<Pair>)
    ensures RawValuesOf(pairs, data)
  {
    var attributes := new Pair[|data|];
    for ix := 0 to |data|
      invariant forall i :: 0 <= i < ix ==> attributes[i] == Pair(data[i].Key, data[i].RawValue)
    {
      attributes[ix] := Pair(data[ix].Key, data[ix].RawValue);
    }
    pairs := attributes[..];
  }

  /** The backlink references of the decorated response. */
  method CopyRefs(objs: seq<RegObject>) returns (refs: seq<String>)
    ensures RefsOf(refs, objs)
  {
    var backlinks := new String[|objs|];
    for ix := 0 to |objs|
      invariant forall i :: 0 <= i < ix ==> backlinks[i] == objs[i].Ref
    {
      backlinks[ix] := objs[ix].Ref;
    }
    refs := backlinks[..];
  }

  /** What the response holds for the object o of type t. */
  predicate Shaped(body: ObjectsBody, t: String, o: String, x: RegObject)
    reads x, x.Data
  {
    var path := MakePath(t, o);
    match body
    case Decorated(objects) => path in objects && ValuesOf(objects[path].attributes, x.Data) && RefsOf(objects[path].backlinks, x.Backlinks)
    case Raw(raw) => path in raw && RawValuesOf(raw[path], x.Data)
  }

  /** The references the response holds entries for. */
  function Refs(body: ObjectsBody): set<String>
  {
    if body.Decorated? then body.objects.Keys else body.raw.Keys
  }

  /** Every key of the response is the reference of one of the named objects of type t. */
  predicate KeysNamed(body: ObjectsBody, t: String, names: set<String>)
  {
    forall k :: k in Refs(body) ==> |t| < |k| && k == MakePath(t, k[|t| + 1..]) && k[|t| + 1..] in names
  }

  /** One object's entry, added to the response under its reference "t/o"; the other entries are kept. */
  method AddObject(body: ObjectsBody, t: String, o: String, x: RegObject) returns (body': ObjectsBody)
    requires x.Ref == MakePath(t, o)
    ensures body'.Raw? == body.Raw? && Refs(body') == Refs(body) + {x.Ref}
    ensures Shaped(body', t, o, x)
    ensures forall o', y :: MakePath(t, o') != x.Ref && Shaped(body, t, o', y) ==> Shaped(body', t, o', y)
  {
    if body.Decorated? {
      var attributes := CopyValues(x.Data);
      var backlinks := CopyRefs(x.Backlinks);
      body' := Decorated(body.objects[x.Ref := ObjectResponse(attributes, backlinks)]);
    } else {
      var attributes := CopyRawValues(x.Data);
      body' := Raw(body.raw[x.Ref := attributes]);
    }
  }

  /** The response loops of regObjectHandler: every selected object under its reference. */
  method ObjectResponses(t: String, objects: map<String, RegObject>, names: seq<String>, results: seq<RegObject>, raw: bool,
                         ghost selected: set<String>)
    returns (body: ObjectsBody)
    requires '/' !in t && ObjectsKeyed(t, objects) && |results| == |names|
    requires forall j :: 0 <= j < |names| ==> names[j] in objects && results[j] == objects[names[j]]
    requires forall o :: o in names ==> o in selected
    ensures body.Raw? <==> raw
    ensures forall j :: 0 <= j < |names| ==> Shaped(body, t, names[j], results[j])
    ensures KeysNamed(body, t, selected)
  {
    body := if raw then Raw(map[]) else Decorated(map[]);
    for i := 0 to |results|
      invariant body.Raw? <==> raw
      invariant forall j :: 0 <= j < i ==> Shaped(body, t, names[j], results[j])
      invariant KeysNamed(body, t, selected)
    {
      MakePathSplit(t, names[i]);
      body := AddObject(body, t, names[i], results[i]);
      forall j | 0 <= j < i + 1
        ensures Shaped(body, t, names[j], results[j])
      {
        if j < i {
          MakePathInjective(t, names[j], t, names[i]);
        }
      }
    }
  }

  /**
   * regObjectHandler: the objects of typeName the request selects, under
   * their references, decorated or raw; a 404 when the type is missing or
   * an exact request names no object of it.
   */
  method RegObjectHandler(types: map<String, RegType>, typeName: String, objName: String, matching: bool, raw: bool)
    returns (reply: Reply<ObjectsBody>)
    requires TypesKeyed(types) && forall t :: t in types ==> '/' !in t && ObjectsKeyed(t, types[t].Objects)
    ensures typeName !in types ==> reply == NotFound("No types matching '" + typeName + "' found")
    ensures typeName in types && Selection(types[typeName].Objects, objName, matching).None? ==>
      reply == NotFound("No objects matching '" + objName + "' found")
    ensures typeName in types && Selection(types[typeName].Objects, objName, matching).Some? ==>
      reply.Found? && (reply.body.Raw? <==> raw)
    ensures reply.Found? ==> (
      typeName in types && Selection(types[typeName].Objects, objName, matching).Some?
      && KeysNamed(reply.body, typeName, Selection(types[typeName].Objects, objName, matching).value)
      && forall o :: o in Selection(types[typeName].Objects, objName, matching).value ==>
           Shaped(reply.body, typeName, o, types[typeName].Objects[o]))
  {
    if typeName !in types {
      return NotFound("No types matching '" + typeName + "' found");
    }
    var rType := types[typeName];
    var found, names, results := Select(rType.Objects, objName, matching);
    if !found {
      return NotFound("No objects matching '" + objName + "' found");
    }
    ghost var selected := Selection(rType.Objects, objName, matching).value;
    assert forall o :: o in names <==> o in selected;
    var body := ObjectResponses(typeName, rType.Objects, names, results, raw, selected);
    forall o | o in selected
      ensures Shaped(body, typeName, o, rType.Objects[o])
    {
      var j :| 0 <= j < |names| && names[j] == o;
    }
    return Found(body);
  }
}
