/** The 2023-04-27 export pass: `create_xml_building`, `create_xml_building_storey`
    and `find_bl_object_by_ifc_info` over the path cache of `add_element`, driven by
    `execute`; and the direct builder of the 2023-04-26 drafts, which appends each
    storey to the building element it holds, as the reference the pass must agree
    with. */
module XmlExecute {
  import opened Common
  import opened Dicts
  import opened Ident
  import opened Scene
  import opened XmlTree
  import opened XmlCreate

  // ---------------------------------------------------------------------------
  // Attributes and records
  // ---------------------------------------------------------------------------

  /** The attributes `create_xml_building` writes for the building named `name`. */
  function BuildingAttrs(name: string, time: string): Attributes
  {
    Attributes("Building", "0", name, name, "", "", name, time, "created")
  }

  /** The attributes `create_xml_building_storey` writes for the storey named `name`. */
  function StoreyAttrs(name: string, time: string): Attributes
  {
    Attributes("BuildingStorey", "0", name, name, "", "", name, time, "created")
  }

  /** The custom properties `add_properties` stores on an exported collection:
      `ifc_info` (read back with `eval`), `parent_path`, `this_path` and the nine
      attributes. */
  datatype Record = Record(info: IfcName, parentPath: string, thisPath: string, attrs: Attributes)

  /** The exporter between steps: the document with its path cache, and
      `bl_objects`, the exported collections keyed by name. A collection exported
      again keeps one entry, whose properties the second export overwrites. */
  datatype State = State(doc: Doc, placed: map<string, Record>)

  /** The keys of an `ifc_info` dict. */
  const InfoKeys: seq<string> := ["data", "head", "name"]

  /** `ifc_info[key]`: any key but the three raises `KeyError`. */
  function Field(info: IfcName, key: string): (r: Result<string>)
    ensures r.Err? <==> key !in InfoKeys
    ensures r.Err? ==> r.error == KeyError(key)
  {
    if key == "data" then Ok(info.data)
    else if key == "head" then Ok(info.head)
    else if key == "name" then Ok(info.name)
    else Err(KeyError(key))
  }

  /** The three fields `find_bl_object_by_ifc_info` can look at tell any two
      entries apart. */
  lemma FieldsDetermine(x: IfcName, y: IfcName)
    ensures (forall k :: k in InfoKeys ==> Field(x, k) == Field(y, k)) <==> x == y
  {
    if forall k :: k in InfoKeys ==> Field(x, k) == Field(y, k) {
      assert Field(x, InfoKeys[0]) == Field(y, InfoKeys[0]);
      assert Field(x, InfoKeys[1]) == Field(y, InfoKeys[1]);
      assert Field(x, InfoKeys[2]) == Field(y, InfoKeys[2]);
    }
  }

  /** `find_bl_object_by_ifc_info(key, value)`: the exported collections are visited
      in the unspecified order of a Python set and the first whose `ifc_info[key]`
      equals `value` is returned; `None` when there is none. A key outside the three
      raises on the first collection visited. */
  method FindBlObject(placed: map<string, Record>, key: string, value: string) returns (r: Result<Option<Record>>)
    ensures r.Err? <==> placed != map[] && key !in InfoKeys
    ensures r.Err? ==> r.error == KeyError(key)
    ensures r.Ok? && r.value.Some? ==>
      exists c :: c in placed && placed[c] == r.value.value && Field(r.value.value.info, key) == Ok(value)
    ensures r.Ok? && r.value.None? ==> forall c :: c in placed ==> Field(placed[c].info, key) != Ok(value)
  {
    var rest := placed.Keys;
    while rest != {}
      invariant rest <= placed.Keys
      invariant forall c :: c in placed.Keys - rest ==> Field(placed[c].info, key) != Ok(value)
      invariant key !in InfoKeys ==> rest == placed.Keys
      decreases |rest|
    {
      var c :| c in rest;
      var f := Field(placed[c].info, key);
      if f.Err? {
        return Err(f.error);
      }
      if f.value == value {
        return Ok(Some(placed[c]));
      }
      rest := rest - {c};
    }
    return Ok(None);
  }

  // ---------------------------------------------------------------------------
  // The two steps
  // ---------------------------------------------------------------------------

  /** `create_xml_building`: the building `Object` goes under the last element
      `get_elements_with_paths` lists, with the transform of the building's proxy
      EMPTY, and the building collection is recorded. Without a building the
      `ifc_building` lookup raises `KeyError("name")`; a building collection
      Blender does not know raises on its name. */
  function CreateXmlBuilding(st: State, p: Parsed, s: Snapshot, time: string): (r: Result<State>)
    requires Wf(st.doc)
    ensures r.Ok? ==> Wf(r.value.doc)
  {
    var hits := GetElementsWithPaths(st.doc.root);
    if |hits| == 0 then Err(IndexError)
    else
      var parentPath := Last(hits).path;
      if p.building.None? then Err(KeyError("name"))
      else
        var b := p.building.value;
        var a := BuildingAttrs(b.name, time);
        if b.data !in s.colls then Err(KeyError(b.data))
        else
          var t := ProxyTransform(s, b.data);
          var res :- AddElement(st.doc, parentPath, a, t);
          AddElementWf(st.doc, parentPath, a, t);
          Ok(State(res.0, st.placed[b.data := Record(b, parentPath, res.1, a)]))
  }

  /** `create_xml_building_storey` once the building record has been looked up:
      the storey `Object` goes under the path that record holds. A missing record
      is `None`, and subscripting it raises `TypeError`. */
  function CreateXmlStoreyUnder(st: State, found: Option<Record>, x: IfcName, s: Snapshot, time: string): (r: Result<State>)
    requires Wf(st.doc)
    ensures r.Ok? ==> Wf(r.value.doc)
  {
    if found.None? then Err(TypeError)
    else
      var parent := found.value.thisPath;
      var a := StoreyAttrs(x.name, time);
      if x.data !in s.colls then Err(KeyError(x.data))
      else
        var t := ProxyTransform(s, x.data);
        var res :- AddElement(st.doc, parent, a, t);
        AddElementWf(st.doc, parent, a, t);
        Ok(State(res.0, st.placed[x.data := Record(x, parent, res.1, a)]))
  }

  /** `create_xml_building_storey`: the parent is the exported collection whose
      `ifc_info["head"]` is "IfcBuilding". */
  method CreateXmlBuildingStorey(st: State, x: IfcName, s: Snapshot, time: string)
    returns (found: Option<Record>, r: Result<State>)
    requires Wf(st.doc)
    ensures found.Some? ==> exists c :: c in st.placed && st.placed[c] == found.value && found.value.info.head == BuildingClass
    ensures found.None? ==> forall c :: c in st.placed ==> st.placed[c].info.head != BuildingClass
    ensures r == CreateXmlStoreyUnder(st, found, x, s, time)
  {
    var f := FindBlObject(st.placed, "head", BuildingClass);
    found := f.value;
    r := CreateXmlStoreyUnder(st, found, x, s, time);
  }

  // ---------------------------------------------------------------------------
  // The direct builder of the 2023-04-26 drafts
  // ---------------------------------------------------------------------------

  /** The transforms of the first `n` storeys' proxies, in order, as the storey
      loop of the 2023-04-26 drafts reads them; the first storey without a proxy
      raises `KeyError("position")`. */
  function StoreyTransforms(ss: seq<IfcName>, s: Snapshot, n: nat): (r: Result<seq<Transform>>)
    requires n <= |ss|
    ensures r.Ok? ==> |r.value| == n
    ensures r.Err? ==> r.error == KeyError("position")
  {
    if n == 0 then Ok([])
    else
      var init :- StoreyTransforms(ss, s, n - 1);
      var t := ProxyTransform(s, ss[n - 1].data);
      if t.None? then Err(KeyError("position")) else Ok(init + [t.value])
  }

  /** The storey loop raises exactly when one of the storeys has no proxy. */
  lemma {:induction false} StoreyTransformsFailIff(ss: seq<IfcName>, s: Snapshot, n: nat)
    requires n <= |ss|
    ensures StoreyTransforms(ss, s, n).Err? <==> exists j :: 0 <= j < n && ProxyTransform(s, ss[j].data).None?
  {
    if n > 0 {
      StoreyTransformsFailIff(ss, s, n - 1);
    }
  }

  /** Otherwise every storey is placed at its own proxy's transform. */
  lemma {:induction false} StoreyTransformsValues(ss: seq<IfcName>, s: Snapshot, n: nat)
    requires n <= |ss| && StoreyTransforms(ss, s, n).Ok?
    ensures forall j :: 0 <= j < n ==> ProxyTransform(s, ss[j].data) == Some(StoreyTransforms(ss, s, n).value[j])
  {
    if n > 0 {
      StoreyTransformsValues(ss, s, n - 1);
    }
  }

  /** A storey `Object` placed at a transform. */
  function StoreyObject(x: IfcName, t: Transform, time: string, full: bool): Element
  {
    Placed(StoreyAttrs(x.name, time), t, full)
  }

  /** The storey `Object`s for the first `|ts|` storeys, each at its transform.
      `full` is false for the first 2023-04-26 draft, which writes neither `id` nor
      `remark`. */
  function StoreyObjects(ss: seq<IfcName>, ts: seq<Transform>, time: string, full: bool): (r: seq<Element>)
    requires |ts| <= |ss|
    ensures |r| == |ts|
  {
    seq(|ts|, j requires 0 <= j < |ts| => StoreyObject(ss[j], ts[j], time, full))
  }

  /** One more transform places one more storey, last. */
  lemma StoreyObjectsSnoc(ss: seq<IfcName>, ts: seq<Transform>, t: Transform, time: string, full: bool)
    requires |ts| < |ss|
    ensures StoreyObjects(ss, ts + [t], time, full) == StoreyObjects(ss, ts, time, full) + [StoreyObject(ss[|ts|], t, time, full)]
  {
    var l := StoreyObjects(ss, ts + [t], time, full);
    var r := StoreyObjects(ss, ts, time, full) + [StoreyObject(ss[|ts|], t, time, full)];
    forall j | 0 <= j < |l|
      ensures l[j] == r[j]
    {
      if j < |ts| {
        assert (ts + [t])[j] == ts[j];
        assert l[j] == StoreyObject(ss[j], ts[j], time, full);
      } else {
        assert l[j] == StoreyObject(ss[j], t, time, full);
      }
    }
  }

  /** The building element with the storey `Object`s after its own children. */
  function WithStoreys(building: Element, kids: seq<Element>): Element
  {
    Element(building.tag, building.attrs, building.children + kids)
  }

  /** Before the first storey the building element is unchanged. */
  lemma NoStoreys(e: Element)
    ensures WithStoreys(e, []) == e
  {
    assert e.children + [] == e.children;
  }

  /** The building `Object` and its storeys as the 2023-04-26 drafts build them:
      Root's second child, its `Transform` first, then one `Object` per storey in
      dict order. */
  function DirectDocument(s: Snapshot, p: Parsed, time: string, system: string, version: string, source: string, full: bool)
    : (r: Result<Element>)
    requires p.storeys.Valid()
    ensures r.Err? <==> p.building.None? || ProxyTransform(s, p.building.value.data).None?
                        || exists j :: 0 <= j < |Values(p.storeys)| && ProxyTransform(s, Values(p.storeys)[j].data).None?
    ensures r.Err? ==> r.error == if p.building.None? then KeyError("name") else KeyError("position")
    ensures r.Ok? ==> |r.value.children| == 2 && r.value.children[0] == Factory(system, version, source).children[0]
  {
    if p.building.None? then Err(KeyError("name"))
    else
      var b := p.building.value;
      var tb := ProxyTransform(s, b.data);
      if tb.None? then Err(KeyError("position"))
      else
        var ss := Values(p.storeys);
        StoreyTransformsFailIff(ss, s, |ss|);
        var ts :- StoreyTransforms(ss, s, |ss|);
        Ok(AddChild(Factory(system, version, source),
                    WithStoreys(Placed(BuildingAttrs(b.name, time), tb.value, full), StoreyObjects(ss, ts, time, full))))
  }

  /** The 2023-04-26 `execute`: parse the collection names, then build directly. */
  function DirectBuild(s: Snapshot, names: seq<string>, time: string, system: string, version: string, source: string, full: bool)
    : (r: Result<Element>)
    ensures (exists c :: c in names && Unsplittable(c)) ==> r == Err(IndexError)
    ensures ParseIfcCollections(names).Ok? ==>
      r == DirectDocument(s, ParseIfcCollections(names).value, time, system, version, source, full)
  {
    ParseFailsIff(names);
    var p :- ParseIfcCollections(names);
    DirectDocument(s, p, time, system, version, source, full)
  }

  // ---------------------------------------------------------------------------
  // What a parse hands to the export
  // ---------------------------------------------------------------------------

  /** What `execute` relies on in a parse: the building entry is of class
      `IfcBuilding`, every storey entry is of class `IfcBuildingStorey` on another
      collection, no two storeys share a local name or a collection, and every entry
      names one of the scanned collections. */
  ghost predicate Entries(b: IfcName, ss: seq<IfcName>, names: seq<string>)
  {
    && b.head == BuildingClass && b.data in names
    && (forall j :: 0 <= j < |ss| ==> ss[j].head == StoreyClass && ss[j].data != b.data && ss[j].data in names)
    && (forall j, k :: 0 <= j < k < |ss| ==> ss[j].name != ss[k].name && ss[j].data != ss[k].data)
  }

  /** Each storey entry of a parse is stored under its own local name, which its
      collection's name carries after `IfcBuildingStorey/`. */
  lemma ParsedStoreys(names: seq<string>)
    requires ParseIfcCollections(names).Ok?
    ensures var p := ParseIfcCollections(names).value;
      forall j :: 0 <= j < |Values(p.storeys)| ==>
        && Values(p.storeys)[j].head == StoreyClass && Values(p.storeys)[j].name == p.storeys.keys[j]
        && DefineIfcStorey(Values(p.storeys)[j].data) == Some(p.storeys.keys[j])
        && Values(p.storeys)[j].data in names
  {
    var p := ParseIfcCollections(names).value;
    ParseStoreyGets(names);
    var ss := Values(p.storeys);
    forall j | 0 <= j < |ss|
      ensures ss[j].head == StoreyClass && ss[j].name == p.storeys.keys[j]
      ensures DefineIfcStorey(ss[j].data) == Some(p.storeys.keys[j]) && ss[j].data in names
    {
      var key := p.storeys.keys[j];
      assert p.storeys.Get(key) == Some(ss[j]);
      assert StoreyOf(names, key).Some?;
      LastStoreyIsLast(names, key);
    }
  }

  /** `parse_ifc_collections` leaves entries `execute` can rely on. */
  lemma ParsedEntries(names: seq<string>)
    requires ParseIfcCollections(names).Ok?
    ensures var p := ParseIfcCollections(names).value;
      p.building.Some? ==> Entries(p.building.value, Values(p.storeys), names)
  {
    var p := ParseIfcCollections(names).value;
    if p.building.Some? {
      var b := p.building.value;
      ParseBuilding(names);
      ParsedStoreys(names);
      var ss := Values(p.storeys);
      var l := LastWithPrefix(BuildingPrefix, names).value;
      assert b.data == l && DefineIfcBuilding(l).Some?;
      forall j | 0 <= j < |ss|
        ensures ss[j].data != b.data
      {
        StoreyIsNotBuilding(ss[j].data);
      }
      forall j, k | 0 <= j < k < |ss|
        ensures ss[j].name != ss[k].name && ss[j].data != ss[k].data
      {
        assert DefineIfcStorey(ss[j].data) != DefineIfcStorey(ss[k].data);
      }
    }
  }

  // ---------------------------------------------------------------------------
  // execute
  // ---------------------------------------------------------------------------

  /** The path the building is registered under. */
  function BuildingPath(b: IfcName): string
  {
    RootPath + "/" + b.name
  }

  /** The path a storey under that building is registered under. */
  function StoreyPath(b: IfcName, x: IfcName): string
  {
    BuildingPath(b) + "/" + x.name
  }

  /** Paths under one parent differ when the names do. */
  lemma PathsApart(base: string, x: string, y: string)
    requires x != y
    ensures base + "/" + x != base + "/" + y
  {
    assert (base + "/" + x)[|base| + 1..] == x;
    assert (base + "/" + y)[|base| + 1..] == y;
  }

  /** The cache `execute` builds: the building, then the first `n` storeys. */
  function CacheOf(b: IfcName, ss: seq<IfcName>, n: nat): map<string, Address>
    requires n <= |ss|
  {
    if n == 0 then map[BuildingPath(b) := [1]]
    else CacheOf(b, ss, n - 1)[StoreyPath(b, ss[n - 1]) := [1, n]]
  }

  /** The exported collections `execute` records: the building, then the first
      `n` storeys. */
  function PlacedOf(b: IfcName, ss: seq<IfcName>, n: nat, time: string): map<string, Record>
    requires n <= |ss|
  {
    if n == 0 then map[b.data := Record(b, RootPath, BuildingPath(b), BuildingAttrs(b.name, time))]
    else
      var x := ss[n - 1];
      PlacedOf(b, ss, n - 1, time)[x.data := Record(x, BuildingPath(b), StoreyPath(b, x), StoreyAttrs(x.name, time))]
  }

  /** Storey paths are longer than the building path, so the building stays
      cached at `[1]`. */
  lemma {:induction false} CacheOfBuilding(b: IfcName, ss: seq<IfcName>, n: nat)
    requires n <= |ss|
    ensures BuildingPath(b) in CacheOf(b, ss, n) && CacheOf(b, ss, n)[BuildingPath(b)] == [1]
  {
    if n > 0 {
      CacheOfBuilding(b, ss, n - 1);
      assert |BuildingPath(b)| < |StoreyPath(b, ss[n - 1])|;
    }
  }

  /** The cache holds the building at `[1]`, the `j`-th storey at `[1, j + 1]`, and
      nothing else. */
  lemma {:induction false} CacheOfEntries(b: IfcName, ss: seq<IfcName>, n: nat, names: seq<string>)
    requires n <= |ss| && (forall j, k :: 0 <= j < k < |ss| ==> ss[j].name != ss[k].name)
    ensures BuildingPath(b) in CacheOf(b, ss, n) && CacheOf(b, ss, n)[BuildingPath(b)] == [1]
    ensures forall j :: 0 <= j < n ==>
      StoreyPath(b, ss[j]) in CacheOf(b, ss, n) && CacheOf(b, ss, n)[StoreyPath(b, ss[j])] == [1, j + 1]
    ensures forall q :: q in CacheOf(b, ss, n) ==> q == BuildingPath(b) || exists j :: 0 <= j < n && q == StoreyPath(b, ss[j])
  {
    if n > 0 {
      CacheOfEntries(b, ss, n - 1, names);
      var x := ss[n - 1];
      assert |BuildingPath(b)| < |StoreyPath(b, x)|;
      forall j | 0 <= j < n - 1
        ensures StoreyPath(b, ss[j]) != StoreyPath(b, x)
      {
        PathsApart(BuildingPath(b), ss[j].name, x.name);
      }
    }
  }

  /** The building keeps its record, each storey has its own, and the building is
      the only exported collection whose class is `IfcBuilding`. */
  lemma {:induction false} PlacedOfEntries(b: IfcName, ss: seq<IfcName>, n: nat, time: string, names: seq<string>)
    requires n <= |ss| && Entries(b, ss, names)
    ensures b.data in PlacedOf(b, ss, n, time)
      && PlacedOf(b, ss, n, time)[b.data] == Record(b, RootPath, BuildingPath(b), BuildingAttrs(b.name, time))
    ensures forall j :: 0 <= j < n ==>
      && ss[j].data in PlacedOf(b, ss, n, time)
      && PlacedOf(b, ss, n, time)[ss[j].data] == Record(ss[j], BuildingPath(b), StoreyPath(b, ss[j]), StoreyAttrs(ss[j].name, time))
    ensures forall c :: c in PlacedOf(b, ss, n, time) && PlacedOf(b, ss, n, time)[c].info.head == BuildingClass ==> c == b.data
  {
    if n > 0 {
      PlacedOfEntries(b, ss, n - 1, time, names);
      assert StoreyClass != BuildingClass;
    }
  }

  /** The factory document has no `Object`, so the building's parent path is
      "root". */
  lemma FactoryParent(system: string, version: string, source: string)
    ensures |GetElementsWithPaths(Factory(system, version, source))| > 0
    ensures Last(GetElementsWithPaths(Factory(system, version, source))).path == RootPath
  {
    var f := Factory(system, version, source);
    var hits := GetElementsWithPaths(f);
    RootsWithoutObjects(f);
    var h := Last(hits);
    assert Sound(f, "root", [], h);
    assert h.addr[0..] == h.addr;
    assert ValidAddr(f, h.addr);
    ShallowNode(f, h.addr);
  }

  /** In a tree whose children are leaves, a non-empty address names a child. */
  lemma ShallowNode(f: Element, a: Address)
    requires ValidAddr(f, a)
    requires forall k :: 0 <= k < |f.children| ==> f.children[k].children == []
    ensures |a| > 0 ==> |a| == 1 && NodeAt(f, a) == f.children[a[0]]
  {
    if |a| > 0 {
      assert ValidAddr(f.children[a[0]], a[1..]);
      assert |a[1..]| == 0;
    }
  }

  /** The building step on a document with no cache and one child under Root: the
      building goes last under Root and is cached at `[1]` under its own path. */
  lemma BuildingStep(f: Element, p: Parsed, s: Snapshot, time: string)
    requires |f.children| == 1
    requires |GetElementsWithPaths(f)| > 0 && Last(GetElementsWithPaths(f)).path == RootPath
    requires CreateXmlBuilding(State(Doc(f, map[]), map[]), p, s, time).Ok?
    ensures p.building.Some? && ProxyTransform(s, p.building.value.data).Some?
    ensures var b := p.building.value;
      var st := CreateXmlBuilding(State(Doc(f, map[]), map[]), p, s, time).value;
      && st.doc.root == AddChild(f, Placed(BuildingAttrs(b.name, time), ProxyTransform(s, b.data).value, true))
      && st.doc.cache == map[BuildingPath(b) := [1]]
      && st.placed == map[b.data := Record(b, RootPath, BuildingPath(b), BuildingAttrs(b.name, time))]
  {
    var d := Doc(f, map[]);
    var b := p.building.value;
    var a := BuildingAttrs(b.name, time);
    var t := ProxyTransform(s, b.data);
    assert ParentAddr(d, RootPath) == Ok([]);
    assert RightmostChain(f, []);
    AddElementOnChain(d, RootPath, a, t);
    var res := AddElement(d, RootPath, a, t).value;
    assert res.0.root == AddChild(f, Placed(a, t.value, true));
    assert res.1 == RootPath + "/" + a.name;
    assert NewAddr(d, RootPath) == [1];
    assert res.0.cache == map[BuildingPath(b) := [1]];
  }

  /** The building step fails on the missing building, or, when Blender knows the
      building's collection, on its missing proxy. */
  lemma BuildingFails(f: Element, p: Parsed, s: Snapshot, time: string)
    requires |GetElementsWithPaths(f)| > 0
    requires p.building.Some? ==> p.building.value.data in s.colls
    requires CreateXmlBuilding(State(Doc(f, map[]), map[]), p, s, time).Err?
    ensures p.building.Some? ==> ProxyTransform(s, p.building.value.data).None?
    ensures CreateXmlBuilding(State(Doc(f, map[]), map[]), p, s, time).error
      == if p.building.None? then KeyError("name") else KeyError("position")
  {
  }

  /** `create_xml_building_storey` under a record whose element lies on the
      rightmost chain: the placed storey `Object` goes last under it, is cached
      under its own path, and the storey is recorded with that path. */
  lemma StoreyUnderOnChain(st: State, found: Record, x: IfcName, s: Snapshot, time: string, parent: Address, st': State)
    requires Wf(st.doc) && ParentAddr(st.doc, found.thisPath) == Ok(parent)
    requires RightmostChain(st.doc.root, parent)
    requires CreateXmlStoreyUnder(st, Some(found), x, s, time) == Ok(st')
    ensures ProxyTransform(s, x.data).Some?
    ensures st'.doc.root == AppendAt(st.doc.root, parent, StoreyObject(x, ProxyTransform(s, x.data).value, time, true))
    ensures st'.doc.cache == st.doc.cache[PathAt(st.doc.root, parent, RootPath) + "/" + x.name := NewAddr(st.doc, found.thisPath)]
    ensures st'.placed
      == st.placed[x.data := Record(x, found.thisPath, PathAt(st.doc.root, parent, RootPath) + "/" + x.name, StoreyAttrs(x.name, time))]
  {
    AddElementOnChain(st.doc, found.thisPath, StoreyAttrs(x.name, time), ProxyTransform(s, x.data));
  }

  /** The document `execute` holds after `i` storeys: the building at `[1]` is the
      last child of Root, ends the rightmost chain, and appending under it adds one
      storey. */
  lemma StoreyShape(f: Element, start: Element, kids: seq<Element>, n: Element)
    requires |f.children| == 1
    ensures var root := AddChild(f, WithStoreys(start, kids));
      && ValidAddr(root, [1]) && NodeAt(root, [1]) == WithStoreys(start, kids)
      && RightmostChain(root, [1])
      && AppendAt(root, [1], n) == AddChild(f, WithStoreys(start, kids + [n]))
  {
    var root := AddChild(f, WithStoreys(start, kids));
    assert [1][1..] == [];
    assert ValidAddr(root.children[1], []);
    assert RightmostChain(root.children[1], []);
    assert WithStoreys(start, kids).children + [n] == WithStoreys(start, kids + [n]).children;
  }

  /** The address of a building's child, written out. */
  lemma AddrPair(n: nat)
    ensures [1] + [n] == [1, n]
  {
  }

  /** A storey step under the cached building fails, when Blender knows the
      storey's collection, on the storey's missing proxy. */
  lemma StoreyFails(st: State, found: Record, b: IfcName, ss: seq<IfcName>, i: nat, s: Snapshot, time: string, names: seq<string>)
    requires i < |ss| && Entries(b, ss, names) && ss[i].data in s.colls
    requires Wf(st.doc) && st.doc.cache == CacheOf(b, ss, i) && found.thisPath == BuildingPath(b)
    requires CreateXmlStoreyUnder(st, Some(found), ss[i], s, time).Err?
    ensures ProxyTransform(s, ss[i].data).None?
    ensures CreateXmlStoreyUnder(st, Some(found), ss[i], s, time).error == KeyError("position")
  {
    CacheOfBuilding(b, ss, i);
  }

  /** The direct builder's document once every storey has its proxy. */
  lemma DirectDocumentBuilt(s: Snapshot, p: Parsed, time: string, system: string, version: string, source: string,
                            ts: seq<Transform>)
    requires p.storeys.Valid() && p.building.Some? && ProxyTransform(s, p.building.value.data).Some?
    requires StoreyTransforms(Values(p.storeys), s, |Values(p.storeys)|) == Ok(ts)
    ensures var b := p.building.value;
      DirectDocument(s, p, time, system, version, source, true)
        == Ok(AddChild(Factory(system, version, source),
                       WithStoreys(Placed(BuildingAttrs(b.name, time), ProxyTransform(s, b.data).value, true),
                                   StoreyObjects(Values(p.storeys), ts, time, true))))
  {
  }

  /** `e` reads back as an `Object` with the record `a` whose one child is a
      `Transform` reading as `t`. */
  ghost predicate ReadsAsPlaced(e: Element, a: Attributes, t: Transform)
  {
    e.tag == ObjectTag && ReadAttributes(e) == Some(a) && |e.children| >= 1 && ReadTransform(e.children[0]) == Some(t)
  }

  /** A placed `Object` in the nine-attribute layout reads back as its record and
      its transform, and has no other child. */
  lemma PlacedReads(a: Attributes, t: Transform)
    ensures ReadsAsPlaced(Placed(a, t, true), a, t) && |Placed(a, t, true).children| == 1
  {
    PlacedFacts(a, t, true);
    ObjectNodeRoundTrip(a);
    var e := Placed(a, t, true);
    assert e.attrs == ObjectNode(a, true).attrs;
  }

  /** Each storey `Object` reads back as its storey's attributes and transform. */
  lemma StoreyObjectsRead(ss: seq<IfcName>, ts: seq<Transform>, time: string)
    requires |ts| <= |ss|
    ensures var kids := StoreyObjects(ss, ts, time, true);
      forall j :: 0 <= j < |ts| ==>
        ReadsAsPlaced(kids[j], StoreyAttrs(ss[j].name, time), ts[j]) && |kids[j].children| == 1
  {
    var kids := StoreyObjects(ss, ts, time, true);
    forall j | 0 <= j < |ts|
      ensures ReadsAsPlaced(kids[j], StoreyAttrs(ss[j].name, time), ts[j]) && |kids[j].children| == 1
    {
      PlacedReads(StoreyAttrs(ss[j].name, time), ts[j]);
    }
  }

  /** The building element the direct builder makes, read back: the building's
      attributes and `Transform` first, then each storey's attributes and
      `Transform`. */
  lemma BuildingElementReads(name: string, tb: Transform, ss: seq<IfcName>, ts: seq<Transform>, time: string)
    requires |ts| == |ss|
    ensures var bo := WithStoreys(Placed(BuildingAttrs(name, time), tb, true), StoreyObjects(ss, ts, time, true));
      && ReadsAsPlaced(bo, BuildingAttrs(name, time), tb) && |bo.children| == 1 + |ss|
      && forall j :: 0 <= j < |ss| ==>
           ReadsAsPlaced(bo.children[j + 1], StoreyAttrs(ss[j].name, time), ts[j]) && |bo.children[j + 1].children| == 1
  {
    var kids := StoreyObjects(ss, ts, time, true);
    var bo := WithStoreys(Placed(BuildingAttrs(name, time), tb, true), kids);
    PlacedReads(BuildingAttrs(name, time), tb);
    assert bo.attrs == Placed(BuildingAttrs(name, time), tb, true).attrs;
    assert bo.children[0] == Placed(BuildingAttrs(name, time), tb, true).children[0];
    StoreyObjectsRead(ss, ts, time);
    assert forall j :: 0 <= j < |ss| ==> bo.children[j + 1] == kids[j];
  }

  /** The direct document is built only when the building and every storey have
      their proxies. */
  lemma DirectDocumentOk(s: Snapshot, p: Parsed, time: string, system: string, version: string, source: string)
    requires p.storeys.Valid() && DirectDocument(s, p, time, system, version, source, true).Ok?
    ensures p.building.Some? && ProxyTransform(s, p.building.value.data).Some?
    ensures StoreyTransforms(Values(p.storeys), s, |Values(p.storeys)|).Ok?
  {
  }

  /** The building element of a direct document whose building and storeys all
      have their proxies. */
  function DirectBuildingElement(s: Snapshot, p: Parsed, time: string): Element
    requires p.storeys.Valid() && p.building.Some? && ProxyTransform(s, p.building.value.data).Some?
    requires StoreyTransforms(Values(p.storeys), s, |Values(p.storeys)|).Ok?
  {
    var b := p.building.value;
    var ss := Values(p.storeys);
    WithStoreys(Placed(BuildingAttrs(b.name, time), ProxyTransform(s, b.data).value, true),
                StoreyObjects(ss, StoreyTransforms(ss, s, |ss|).value, time, true))
  }

  lemma DirectBuildingChild(s: Snapshot, p: Parsed, time: string, system: string, version: string, source: string)
    requires p.storeys.Valid() && p.building.Some? && ProxyTransform(s, p.building.value.data).Some?
    requires StoreyTransforms(Values(p.storeys), s, |Values(p.storeys)|).Ok?
    ensures DirectDocument(s, p, time, system, version, source, true).Ok?
    ensures DirectDocument(s, p, time, system, version, source, true).value.children[1] == DirectBuildingElement(s, p, time)
  {
    DirectDocumentBuilt(s, p, time, system, version, source, StoreyTransforms(Values(p.storeys), s, |Values(p.storeys)|).value);
  }

  /** Reading the direct document back: `Root`'s second child is the building
      `Object` with the building's attributes and its proxy's transform, followed by
      the storeys in dict order, each with its attributes and its transform in `ts`,
      which is its own proxy's. */
  lemma DirectDocumentReads(s: Snapshot, p: Parsed, time: string, system: string, version: string, source: string)
    requires p.storeys.Valid() && DirectDocument(s, p, time, system, version, source, true).Ok?
    ensures p.building.Some? && ProxyTransform(s, p.building.value.data).Some?
    ensures StoreyTransforms(Values(p.storeys), s, |Values(p.storeys)|).Ok?
    ensures var bo := DirectDocument(s, p, time, system, version, source, true).value.children[1];
      var b := p.building.value;
      var ss := Values(p.storeys);
      var ts := StoreyTransforms(ss, s, |ss|).value;
      && ReadsAsPlaced(bo, BuildingAttrs(b.name, time), ProxyTransform(s, b.data).value)
      && |bo.children| == 1 + |ss|
      && (forall j :: 0 <= j < |ss| ==> ReadsAsPlaced(bo.children[j + 1], StoreyAttrs(ss[j].name, time), ts[j]))
      && (forall j :: 0 <= j < |ss| ==> ProxyTransform(s, ss[j].data) == Some(ts[j]))
  {
    DirectDocumentOk(s, p, time, system, version, source);
    DirectBuildingChild(s, p, time, system, version, source);
    var b := p.building.value;
    var ss := Values(p.storeys);
    var ts := StoreyTransforms(ss, s, |ss|).value;
    BuildingElementReads(b.name, ProxyTransform(s, b.data).value, ss, ts, time);
    StoreyTransformsValues(ss, s, |ss|);
  }

  /** The direct builder raises `KeyError("position")` on a storey without a proxy. */
  lemma DirectDocumentStoreyFails(s: Snapshot, p: Parsed, time: string, system: string, version: string, source: string)
    requires p.storeys.Valid() && p.building.Some?
    requires StoreyTransforms(Values(p.storeys), s, |Values(p.storeys)|).Err?
    ensures DirectDocument(s, p, time, system, version, source, true) == Err(KeyError("position"))
  {
  }

  /** The state of `execute` after the building and the first `i` storeys: the
      building element holds its `Transform` and the `i` placed storeys, the cache
      is `CacheOf` and the records are `PlacedOf`. Whether the document is
      well-formed is kept apart. */
  ghost predicate Placing(st: State, f: Element, start: Element, b: IfcName, ss: seq<IfcName>, i: nat, s: Snapshot, time: string)
  {
    && i <= |ss| && StoreyTransforms(ss, s, i).Ok?
    && st.doc.root == AddChild(f, WithStoreys(start, StoreyObjects(ss, StoreyTransforms(ss, s, i).value, time, true)))
    && st.doc.cache == CacheOf(b, ss, i) && st.placed == PlacedOf(b, ss, i, time)
  }

  /** The building record is the one the lookup in `create_xml_building_storey`
      finds. */
  lemma FoundBuilding(st: State, found: Option<Record>, b: IfcName, ss: seq<IfcName>, i: nat, time: string, names: seq<string>)
    requires i <= |ss| && Entries(b, ss, names) && st.placed == PlacedOf(b, ss, i, time)
    requires found.Some? ==> exists c :: c in st.placed && st.placed[c] == found.value && found.value.info.head == BuildingClass
    requires found.None? ==> forall c :: c in st.placed ==> st.placed[c].info.head != BuildingClass
    ensures found == Some(Record(b, RootPath, BuildingPath(b), BuildingAttrs(b.name, time)))
  {
    PlacedOfEntries(b, ss, i, time, names);
  }

  /** The loop state after one more storey placed, cached and recorded. */
  lemma PlacingStep(st: State, st': State, f: Element, start: Element, b: IfcName, ss: seq<IfcName>, i: nat,
                    s: Snapshot, time: string)
    requires i < |ss| && Placing(st, f, start, b, ss, i, s, time) && ProxyTransform(s, ss[i].data).Some?
    requires st'.doc.root == AddChild(f, WithStoreys(start,
      StoreyObjects(ss, StoreyTransforms(ss, s, i).value, time, true)
        + [StoreyObject(ss[i], ProxyTransform(s, ss[i].data).value, time, true)]))
    requires st'.doc.cache == st.doc.cache[StoreyPath(b, ss[i]) := [1, i + 1]]
    requires st'.placed == st.placed[ss[i].data := Record(ss[i], BuildingPath(b), StoreyPath(b, ss[i]), StoreyAttrs(ss[i].name, time))]
    ensures Placing(st', f, start, b, ss, i + 1, s, time)
  {
    StoreyObjectsSnoc(ss, StoreyTransforms(ss, s, i).value, ProxyTransform(s, ss[i].data).value, time, true);
  }

  /** One storey step under the cached building, after `i` storeys: the storey
      goes last under the building and is cached at `[1, i + 1]` under its own
      path. */
  lemma StoreyStep(st: State, st': State, f: Element, start: Element, kids: seq<Element>, b: IfcName,
                   ss: seq<IfcName>, i: nat, s: Snapshot, time: string)
    requires i < |ss| && |f.children| == 1 && |start.children| == 1 && |kids| == i
    requires Wf(st.doc) && st.doc.root == AddChild(f, WithStoreys(start, kids)) && st.doc.cache == CacheOf(b, ss, i)
    requires CreateXmlStoreyUnder(st, Some(Record(b, RootPath, BuildingPath(b), BuildingAttrs(b.name, time))), ss[i], s, time) == Ok(st')
    ensures ProxyTransform(s, ss[i].data).Some?
    ensures st'.doc.root == AddChild(f, WithStoreys(start, kids + [StoreyObject(ss[i], ProxyTransform(s, ss[i].data).value, time, true)]))
    ensures st'.doc.cache == st.doc.cache[StoreyPath(b, ss[i]) := [1, i + 1]]
    ensures st'.placed == st.placed[ss[i].data := Record(ss[i], BuildingPath(b), StoreyPath(b, ss[i]), StoreyAttrs(ss[i].name, time))]
  {
    var found := Record(b, RootPath, BuildingPath(b), BuildingAttrs(b.name, time));
    var x := ss[i];
    var d := st.doc;
    var bp := BuildingPath(b);
    CacheOfBuilding(b, ss, i);
    assert ParentAddr(d, bp) == Ok([1]);
    StoreyShape(f, start, kids, StoreyObject(x, ProxyTransform(s, x.data).value, time, true));
    assert PathAt(d.root, [1], RootPath) == bp;
    StoreyUnderOnChain(st, found, x, s, time, [1], st');
    assert |NodeAt(d.root, [1]).children| == |kids| + 1;
    AddrPair(|kids| + 1);
    assert NewAddr(d, bp) == [1, |kids| + 1];
    assert PathAt(d.root, [1], RootPath) + "/" + x.name == StoreyPath(b, x);
  }

  /** A storey placed under the building record on the loop state after `i`
      storeys gives the loop state after `i + 1`. */
  lemma StoreyTurn(st: State, st': State, f: Element, start: Element, b: IfcName, ss: seq<IfcName>, i: nat,
                   s: Snapshot, time: string)
    requires i < |ss| && |f.children| == 1 && |start.children| == 1
    requires Wf(st.doc) && Placing(st, f, start, b, ss, i, s, time)
    requires CreateXmlStoreyUnder(st, Some(Record(b, RootPath, BuildingPath(b), BuildingAttrs(b.name, time))), ss[i], s, time) == Ok(st')
    ensures Placing(st', f, start, b, ss, i + 1, s, time)
  {
    var kids := StoreyObjects(ss, StoreyTransforms(ss, s, i).value, time, true);
    StoreyStep(st, st', f, start, kids, b, ss, i, s, time);
    PlacingStep(st, st', f, start, b, ss, i, s, time);
  }

  /** One turn of the storey loop of `execute`: look up the building record, then
      place the `i`-th storey under it. */
  method CreateXmlStoreyStep(st: State, f: Element, ghost start: Element, b: IfcName,
                             ss: seq<IfcName>, i: nat, s: Snapshot, time: string, ghost names: seq<string>)
    returns (r: Result<State>)
    requires i < |ss| && Entries(b, ss, names) && |f.children| == 1 && |start.children| == 1
    requires Wf(st.doc) && Placing(st, f, start, b, ss, i, s, time)
    ensures r.Ok? ==> Wf(r.value.doc) && Placing(r.value, f, start, b, ss, i + 1, s, time)
    ensures ss[i].data !in s.colls ==> r == Err(KeyError(ss[i].data))
    ensures ss[i].data in s.colls ==> (r.Ok? <==> ProxyTransform(s, ss[i].data).Some?)
    ensures ss[i].data in s.colls && r.Err? ==> r.error == KeyError("position")
  {
    var found, next := CreateXmlBuildingStorey(st, ss[i], s, time);
    FoundBuilding(st, found, b, ss, i, time, names);
    CacheOfBuilding(b, ss, i);
    if next.Err? {
      if ss[i].data in s.colls {
        StoreyFails(st, found.value, b, ss, i, s, time, names);
      }
      return next;
    }
    StoreyTurn(st, next.value, f, start, b, ss, i, s, time);
    return next;
  }

  /** The storey loop of `execute`: every storey goes under the building in
      order. It places exactly the storey `Object`s of the direct builder, caches
      and records each storey, and, when Blender knows every storey collection,
      fails exactly where the direct builder does. */
  method CreateXmlStoreys(st0: State, f: Element, ghost start: Element, b: IfcName, ss: seq<IfcName>,
                          s: Snapshot, time: string, ghost names: seq<string>)
    returns (r: Result<State>)
    requires Entries(b, ss, names) && |f.children| == 1 && |start.children| == 1
    requires Wf(st0.doc) && st0.doc.root == AddChild(f, WithStoreys(start, []))
    requires st0.doc.cache == CacheOf(b, ss, 0) && st0.placed == PlacedOf(b, ss, 0, time)
    ensures r.Ok? ==> Wf(r.value.doc) && StoreyTransforms(ss, s, |ss|).Ok?
    ensures r.Ok? ==>
      r.value.doc.root == AddChild(f, WithStoreys(start, StoreyObjects(ss, StoreyTransforms(ss, s, |ss|).value, time, true)))
    ensures r.Ok? ==> r.value.doc.cache == CacheOf(b, ss, |ss|) && r.value.placed == PlacedOf(b, ss, |ss|, time)
    ensures r.Err? && (forall j :: 0 <= j < |ss| ==> ss[j].data in s.colls) ==>
      StoreyTransforms(ss, s, |ss|).Err? && r.error == KeyError("position")
  {
    var st := st0;
    var i := 0;
    while i < |ss|
      invariant Wf(st.doc) && Placing(st, f, start, b, ss, i, s, time)
    {
      var next := CreateXmlStoreyStep(st, f, start, b, ss, i, s, time, names);
      if next.Err? {
        if ss[i].data in s.colls {
          StoreyTransformsFailIff(ss, s, i + 1);
          StoreyTransformsFailIff(ss, s, |ss|);
        }
        return next;
      }
      st := next.value;
      i := i + 1;
    }
    return Ok(st);
  }

  /** `execute` of the 2023-04-27 draft over the collection names in the order
      `store_collections` visits them. It builds exactly the document of the
      2023-04-26 direct builder; when Blender knows every collection it fails
      exactly when that builder does, with the same exception; and it caches the
      building and every storey under their own paths. */
  method Execute(s: Snapshot, names: seq<string>, time: string, system: string, version: string, source: string)
    returns (r: Result<State>)
    ensures (exists c :: c in names && Unsplittable(c)) ==> r == Err(IndexError)
    ensures r.Ok? ==> Wf(r.value.doc)
    ensures r.Ok? ==> DirectBuild(s, names, time, system, version, source, true) == Ok(r.value.doc.root)
    ensures (forall c :: c in names ==> c in s.colls) && r.Err? ==>
      DirectBuild(s, names, time, system, version, source, true) == Err(r.error)
    ensures r.Ok? ==> var p := ParseIfcCollections(names).value;
      && p.building.Some? && p.storeys.Valid()
      && r.value.doc.cache == CacheOf(p.building.value, Values(p.storeys), |p.storeys.keys|)
      && r.value.placed == PlacedOf(p.building.value, Values(p.storeys), |p.storeys.keys|, time)
  {
    ParseFailsIff(names);
    var p :- ParseIfcCollections(names);
    ParsedEntries(names);
    FactoryParent(system, version, source);
    var f := Factory(system, version, source);
    var st0 := State(Doc(f, map[]), map[]);
    var built := CreateXmlBuilding(st0, p, s, time);
    if built.Err? {
      if p.building.Some? ==> p.building.value.data in s.colls {
        BuildingFails(f, p, s, time);
      }
      return Err(built.error);
    }
    BuildingStep(f, p, s, time);
    var b := p.building.value;
    var ss := Values(p.storeys);
    ghost var start := Placed(BuildingAttrs(b.name, time), ProxyTransform(s, b.data).value, true);
    NoStoreys(start);
    var done := CreateXmlStoreys(built.value, f, start, b, ss, s, time, names);
    if done.Err? {
      if forall c :: c in names ==> c in s.colls {
        DirectDocumentStoreyFails(s, p, time, system, version, source);
      }
      return done;
    }
    DirectDocumentBuilt(s, p, time, system, version, source, StoreyTransforms(ss, s, |ss|).value);
    return done;
  }
}
