/** The XML exporter drafts: the `Root`/`DataSource` skeleton, the fixed
    `Object`/`Transform` layout, the scan of `Ifc` collections, and the two ways of
    placing objects — by element reference (2023-04-26) and by path through a
    path-to-element cache (2023-04-27). */
module XmlCreate {
  import opened Common
  import opened Dicts
  import opened Ident
  import opened Scene
  import opened XmlTree

  const XsdAttr: string := "xmlns:xsd"
  const XsdUri: string := "http://www.w3.org/2001/XMLSchema"
  const XsiAttr: string := "xmlns:xsi"
  const XsiUri: string := "http://www.w3.org/2001/XMLSchema-instance"
  const DataSourceTag: string := "DataSource"
  const TransformTag: string := "Transform"

  /** An element with the given attributes and no children. The dict is built
      directly; `LeafFacts` shows it is the one setting the pairs in order gives. */
  function Leaf(tag: string, pairs: seq<(string, string)>): (r: Element)
    requires Distinct(Firsts(pairs))
    ensures r.tag == tag && r.children == []
  {
    Element(tag, Dict(Firsts(pairs), PairMap(pairs)), [])
  }

  /** Setting the pairs one by one on `{}`, as ElementTree's `set` does, gives the
      leaf's attributes: valid, keyed in order, each key holding its own value. */
  lemma LeafFacts(tag: string, pairs: seq<(string, string)>)
    requires Distinct(Firsts(pairs))
    ensures Leaf(tag, pairs).attrs == PutAll(Empty(), pairs)
    ensures Leaf(tag, pairs).attrs.Valid() && Leaf(tag, pairs).attrs.keys == Firsts(pairs)
    ensures forall i :: 0 <= i < |pairs| ==> Leaf(tag, pairs).attrs.Get(pairs[i].0) == Some(pairs[i].1)
  {
    PutAllFromEmpty(pairs);
    PutAllGet(Empty<string>(), pairs);
    PutAllFreshKeys(Empty<string>(), pairs);
  }

  // ---------------------------------------------------------------------------
  // The skeleton
  // ---------------------------------------------------------------------------

  function RootPairs(): seq<(string, string)>
  {
    [(XsdAttr, XsdUri), (XsiAttr, XsiUri)]
  }

  function DataSourcePairs(system: string, version: string, source: string): seq<(string, string)>
  {
    [("ProductType", system), ("Version", version), ("Source", source)]
  }

  /** A leaf with two attributes under different names. */
  lemma LeafTwo(tag: string, p: (string, string), q: (string, string))
    requires p.0 != q.0
    ensures Distinct(Firsts([p, q]))
    ensures var g := Leaf(tag, [p, q]).attrs;
      && g.keys == [p.0, q.0] && g.Get(p.0) == Some(p.1) && g.Get(q.0) == Some(q.1)
  {
    assert Firsts([p, q]) == [p.0, q.0];
    LeafFacts(tag, [p, q]);
    assert [p, q][0] == p && [p, q][1] == q;
  }

  /** A leaf with three attributes under different names. */
  lemma LeafThree(tag: string, p: (string, string), q: (string, string), r: (string, string))
    requires p.0 != q.0 && p.0 != r.0 && q.0 != r.0
    ensures Distinct(Firsts([p, q, r]))
    ensures var g := Leaf(tag, [p, q, r]).attrs;
      && g.keys == [p.0, q.0, r.0] && g.Get(p.0) == Some(p.1) && g.Get(q.0) == Some(q.1) && g.Get(r.0) == Some(r.1)
  {
    assert Firsts([p, q, r]) == [p.0, q.0, r.0];
    LeafFacts(tag, [p, q, r]);
    assert [p, q, r][0] == p && [p, q, r][1] == q && [p, q, r][2] == r;
  }

  /** The `Root` element: the two namespace attributes, in order, and no children. */
  function RootNode(): (r: Element)
    ensures r.tag == RootTag && r.children == [] && r.attrs.keys == [XsdAttr, XsiAttr]
    ensures r.attrs.Get(XsdAttr) == Some(XsdUri) && r.attrs.Get(XsiAttr) == Some(XsiUri)
  {
    assert XsdAttr[8] != XsiAttr[8];
    LeafTwo(RootTag, (XsdAttr, XsdUri), (XsiAttr, XsiUri));
    Leaf(RootTag, RootPairs())
  }

  /** The `DataSource` element: the three arguments under their fixed names. */
  function DataSourceNode(system: string, version: string, source: string): (r: Element)
    ensures r.tag == DataSourceTag && r.children == []
    ensures r.attrs.keys == ["ProductType", "Version", "Source"]
    ensures r.attrs.Get("ProductType") == Some(system)
    ensures r.attrs.Get("Version") == Some(version)
    ensures r.attrs.Get("Source") == Some(source)
  {
    assert "ProductType"[0] != "Version"[0] && "ProductType"[0] != "Source"[0] && "Version"[0] != "Source"[0];
    LeafThree(DataSourceTag, ("ProductType", system), ("Version", version), ("Source", source));
    Leaf(DataSourceTag, DataSourcePairs(system, version, source))
  }

  /** `XmlCreateSettings.factory`: `Root` with the two namespace attributes, whose
      only child is a `DataSource` carrying the three arguments. */
  function Factory(system: string, version: string, source: string): (r: Element)
    ensures r.tag == RootTag && r.attrs.keys == [XsdAttr, XsiAttr]
    ensures r.attrs.Get(XsdAttr) == Some(XsdUri) && r.attrs.Get(XsiAttr) == Some(XsiUri)
    ensures |r.children| == 1 && r.children[0].tag == DataSourceTag && r.children[0].children == []
    ensures r.children[0].attrs.keys == ["ProductType", "Version", "Source"]
    ensures r.children[0].attrs.Get("ProductType") == Some(system)
    ensures r.children[0].attrs.Get("Version") == Some(version)
    ensures r.children[0].attrs.Get("Source") == Some(source)
    ensures NoObject(r)
  {
    var ds := DataSourceNode(system, version, source);
    var r := AddChild(RootNode(), ds);
    assert r.children == [ds];
    r
  }

  /** The 2023-04-25 `XmlBuilder.factory` that sets every attribute through
      `add_attribute`. */
  function FactoryByAttribute(system: string, version: string, source: string): (r: Element)
    ensures r == Factory(system, version, source)
  {
    RootNodeBySet();
    DataSourceNodeBySet(system, version, source);
    var root := SetAttribute(SetAttribute(Element(RootTag, Empty(), []), XsdAttr, XsdUri), XsiAttr, XsiUri);
    var ds := SetAttribute(SetAttribute(SetAttribute(Element(DataSourceTag, Empty(), []),
      "ProductType", system), "Version", version), "Source", source);
    AddChild(root, ds)
  }

  /** `Root` is what setting its two attributes one after the other gives. */
  lemma RootNodeBySet()
    ensures RootNode() == SetAttribute(SetAttribute(Element(RootTag, Empty(), []), XsdAttr, XsdUri), XsiAttr, XsiUri)
  {
    LeafFacts(RootTag, RootPairs());
    PutAllTwo(Empty(), (XsdAttr, XsdUri), (XsiAttr, XsiUri));
  }

  /** `DataSource` is what setting its three attributes one after the other gives. */
  lemma DataSourceNodeBySet(system: string, version: string, source: string)
    ensures DataSourceNode(system, version, source) == SetAttribute(SetAttribute(SetAttribute(
      Element(DataSourceTag, Empty(), []), "ProductType", system), "Version", version), "Source", source)
  {
    LeafFacts(DataSourceTag, DataSourcePairs(system, version, source));
    PutAllThree(Empty(), ("ProductType", system), ("Version", version), ("Source", source));
  }

  lemma PutAllTwo(d: Dict<string>, p: (string, string), q: (string, string))
    ensures PutAll(d, [p, q]) == d.Put(p.0, p.1).Put(q.0, q.1)
  {
    PutAllSnoc(d, [], p);
    assert [] + [p] == [p] && [p] + [q] == [p, q];
    PutAllSnoc(d, [p], q);
  }

  lemma PutAllThree(d: Dict<string>, p: (string, string), q: (string, string), s: (string, string))
    ensures PutAll(d, [p, q, s]) == d.Put(p.0, p.1).Put(q.0, q.1).Put(s.0, s.1)
  {
    PutAllTwo(d, p, q);
    assert [p, q] + [s] == [p, q, s];
    PutAllSnoc(d, [p, q], s);
  }

  // ---------------------------------------------------------------------------
  // The Object / Transform layout
  // ---------------------------------------------------------------------------

  /** The nine attributes of an exported `Object`, in the order they are set. */
  const ObjectKeys: seq<string> := ["type", "category", "name", "alias", "id", "remark", "model", "time", "noted"]

  /** The seven attributes of the 2023-04-25 and first 2023-04-26 drafts: no `id`, no `remark`. */
  const ShortKeys: seq<string> := ["type", "category", "name", "alias", "model", "time", "noted"]

  function ObjectPairs(a: Attributes, full: bool): (r: seq<(string, string)>)
    ensures Firsts(r) == if full then ObjectKeys else ShortKeys
  {
    if full then
      [("type", a.objType), ("category", a.category), ("name", a.name), ("alias", a.alias), ("id", a.id),
       ("remark", a.remark), ("model", a.model), ("time", a.time), ("noted", a.noted)]
    else
      [("type", a.objType), ("category", a.category), ("name", a.name), ("alias", a.alias),
       ("model", a.model), ("time", a.time), ("noted", a.noted)]
  }

  /** `create_xml_node` (and the attribute block of `add_element`): a childless
      `Object` with the attributes in order, all nine when `full`, else without `id`
      and `remark`. */
  function ObjectNode(a: Attributes, full: bool): (r: Element)
    ensures r.tag == ObjectTag && r.children == []
  {
    ObjectKeysDistinct(full);
    Leaf(ObjectTag, ObjectPairs(a, full))
  }

  lemma ObjectKeysDistinct(full: bool)
    ensures Distinct(if full then ObjectKeys else ShortKeys)
  {
  }

  /** The attributes of an `Object` form a valid dict keyed in layout order. */
  lemma ObjectNodeKeys(a: Attributes, full: bool)
    ensures ObjectNode(a, full).attrs.Valid()
    ensures ObjectNode(a, full).attrs.keys == if full then ObjectKeys else ShortKeys
  {
    ObjectKeysDistinct(full);
    LeafFacts(ObjectTag, ObjectPairs(a, full));
  }

  lemma LeafGet(tag: string, pairs: seq<(string, string)>, i: nat)
    requires Distinct(Firsts(pairs)) && i < |pairs|
    ensures Leaf(tag, pairs).attrs.Get(pairs[i].0) == Some(pairs[i].1)
  {
    LeafFacts(tag, pairs);
  }

  /** The `name` attribute, which the paths are made of, is the name field. */
  lemma ObjectNodeName(a: Attributes, full: bool)
    ensures ObjectNode(a, full).attrs.Get(NameAttr) == Some(a.name)
  {
    if full {
      FullObjectGets(a);
    } else {
      ShortObjectGets(a);
    }
  }

  /** In the nine-attribute layout every attribute holds its field verbatim. */
  lemma FullObjectGets(a: Attributes)
    ensures var g := ObjectNode(a, true).attrs;
      && g.Get("type") == Some(a.objType) && g.Get("category") == Some(a.category)
      && g.Get("name") == Some(a.name) && g.Get("alias") == Some(a.alias)
      && g.Get("id") == Some(a.id) && g.Get("remark") == Some(a.remark)
      && g.Get("model") == Some(a.model) && g.Get("time") == Some(a.time)
      && g.Get("noted") == Some(a.noted)
  {
    var ps := ObjectPairs(a, true);
    assert Distinct(Firsts(ps));
    LeafGet(ObjectTag, ps, 0);
    LeafGet(ObjectTag, ps, 1);
    LeafGet(ObjectTag, ps, 2);
    LeafGet(ObjectTag, ps, 3);
    LeafGet(ObjectTag, ps, 4);
    LeafGet(ObjectTag, ps, 5);
    LeafGet(ObjectTag, ps, 6);
    LeafGet(ObjectTag, ps, 7);
    LeafGet(ObjectTag, ps, 8);
  }

  /** In the seven-attribute layout the seven fields are verbatim and `id` and
      `remark` are absent. */
  lemma ShortObjectGets(a: Attributes)
    ensures var g := ObjectNode(a, false).attrs;
      && g.Get("type") == Some(a.objType) && g.Get("category") == Some(a.category)
      && g.Get("name") == Some(a.name) && g.Get("alias") == Some(a.alias)
      && g.Get("model") == Some(a.model) && g.Get("time") == Some(a.time)
      && g.Get("noted") == Some(a.noted)
  {
    var ps := ObjectPairs(a, false);
    assert Distinct(Firsts(ps));
    LeafGet(ObjectTag, ps, 0);
    LeafGet(ObjectTag, ps, 1);
    LeafGet(ObjectTag, ps, 2);
    LeafGet(ObjectTag, ps, 3);
    LeafGet(ObjectTag, ps, 4);
    LeafGet(ObjectTag, ps, 5);
    LeafGet(ObjectTag, ps, 6);
  }

  /** The seven-attribute layout has no `id` and no `remark`. */
  lemma ShortObjectLacks(a: Attributes)
    ensures ObjectNode(a, false).attrs.Get("id") == None
    ensures ObjectNode(a, false).attrs.Get("remark") == None
  {
    ObjectNodeKeys(a, false);
    forall j | 0 <= j < |ShortKeys|
      ensures ShortKeys[j] != "id" && ShortKeys[j] != "remark"
    {
      assert |ShortKeys[j]| != 2 && |ShortKeys[j]| != 6;
    }
  }

  /** Reads the nine attributes of an `Object` back; `None` when one is missing. */
  function ReadAttributes(e: Element): (r: Option<Attributes>)
    ensures r.Some? <==> forall k :: k in ObjectKeys ==> e.attrs.Get(k).Some?
  {
    var g := e.attrs;
    if forall k :: k in ObjectKeys ==> g.Get(k).Some? then
      Some(Attributes(g.Get("type").value, g.Get("category").value, g.Get("name").value,
        g.Get("alias").value, g.Get("id").value, g.Get("remark").value, g.Get("model").value,
        g.Get("time").value, g.Get("noted").value))
    else None
  }

  /** The nine-attribute layout loses nothing; the seven-attribute one cannot be read
      back as a full record. */
  lemma ObjectNodeRoundTrip(a: Attributes)
    ensures ReadAttributes(ObjectNode(a, true)) == Some(a)
    ensures ReadAttributes(ObjectNode(a, false)) == None
  {
    FullObjectGets(a);
    ShortObjectLacks(a);
  }

  /** The tags of a `Transform`'s children, in order. */
  const TripleTags: seq<string> := ["position", "rotation", "scale"]

  /** A transform's three triples, in `TripleTags` order. */
  function Triples(t: Transform): (r: seq<Triple>)
    ensures |r| == 3
  {
    [t.position, t.rotation, t.scale]
  }

  /** One of `position`, `rotation`, `scale`: the triple as `x`, `y`, `z`. */
  function TripleNode(tag: string, t: Triple): (r: Element)
    ensures r.tag == tag && r.children == []
  {
    var ps := [("x", t.x), ("y", t.y), ("z", t.z)];
    assert Distinct(Firsts(ps));
    Leaf(tag, ps)
  }

  function ReadTriple(e: Element): Option<Triple>
  {
    var g := e.attrs;
    if g.Get("x").Some? && g.Get("y").Some? && g.Get("z").Some? then
      Some(Triple(g.Get("x").value, g.Get("y").value, g.Get("z").value))
    else None
  }

  /** The components are written as `x`, `y`, `z`, in that order, and read back unchanged. */
  lemma TripleRoundTrip(tag: string, t: Triple)
    ensures TripleNode(tag, t).attrs.keys == ["x", "y", "z"]
    ensures ReadTriple(TripleNode(tag, t)) == Some(t)
  {
    var ps := [("x", t.x), ("y", t.y), ("z", t.z)];
    assert Distinct(Firsts(ps));
    LeafGet(tag, ps, 0);
    LeafGet(tag, ps, 1);
    LeafGet(tag, ps, 2);
  }

  /** `create_xml_transform`: a `Transform` holding `position`, `rotation` and
      `scale` in that order. */
  function TransformNode(t: Transform): (r: Element)
    ensures r.tag == TransformTag && |r.children| == 3
    ensures r.children[0].tag == "position" && r.children[1].tag == "rotation" && r.children[2].tag == "scale"
  {
    Element(TransformTag, Empty(),
      [TripleNode("position", t.position), TripleNode("rotation", t.rotation), TripleNode("scale", t.scale)])
  }

  /** Reads a `Transform` back: three children tagged as `TripleTags`, each with `x`,
      `y` and `z`. */
  function ReadTransform(e: Element): (r: Option<Transform>)
    ensures r.Some? ==> e.tag == TransformTag && |e.children| == 3
    ensures r.Some? ==> forall i :: 0 <= i < 3 ==> e.children[i].tag == TripleTags[i]
  {
    if e.tag == TransformTag && |e.children| == 3
      && (forall i :: 0 <= i < 3 ==> e.children[i].tag == TripleTags[i])
      && ReadTriple(e.children[0]).Some? && ReadTriple(e.children[1]).Some? && ReadTriple(e.children[2]).Some?
    then Some(Transform(ReadTriple(e.children[0]).value, ReadTriple(e.children[1]).value, ReadTriple(e.children[2]).value))
    else None
  }

  /** Every component of every triple is written where `ReadTransform` finds it. */
  lemma TransformRoundTrip(t: Transform)
    ensures ReadTransform(TransformNode(t)) == Some(t)
  {
    var r := TransformNode(t);
    TripleRoundTrip("position", t.position);
    TripleRoundTrip("rotation", t.rotation);
    TripleRoundTrip("scale", t.scale);
    assert r.children[0] == TripleNode(TripleTags[0], Triples(t)[0]);
    assert r.children[1] == TripleNode(TripleTags[1], Triples(t)[1]);
    assert r.children[2] == TripleNode(TripleTags[2], Triples(t)[2]);
  }

  /** An element without children that is not an `Object` holds no `Object`. */
  lemma Childless(e: Element)
    requires e.tag != ObjectTag && e.children == []
    ensures NoObject(e)
  {
  }

  lemma ThreeChildren(tag: string, attrs: Dict<string>, p: Element, q: Element, s: Element)
    requires tag != ObjectTag && NoObject(p) && NoObject(q) && NoObject(s)
    ensures NoObject(Element(tag, attrs, [p, q, s]))
  {
    var r := Element(tag, attrs, [p, q, s]);
    assert forall i :: 0 <= i < |r.children| ==> r.children[i] in {p, q, s};
  }

  /** A `Transform` holds no `Object`, so it never shows in the `Object` walk. */
  lemma TransformNodeNoObject(t: Transform)
    ensures NoObject(TransformNode(t))
  {
    var p := TripleNode("position", t.position);
    var q := TripleNode("rotation", t.rotation);
    var s := TripleNode("scale", t.scale);
    Childless(p);
    Childless(q);
    Childless(s);
    ThreeChildren(TransformTag, Empty(), p, q, s);
  }

  /** An `Object` followed by its `Transform`, as every draft emits it. */
  function Placed(a: Attributes, t: Transform, full: bool): Element
  {
    AddChild(ObjectNode(a, full), TransformNode(t))
  }

  /** A placed `Object` carries the attributes of `ObjectNode`, and its one child
      reads back as the transform and holds no `Object`. */
  lemma PlacedFacts(a: Attributes, t: Transform, full: bool)
    ensures var r := Placed(a, t, full);
      && r.tag == ObjectTag && r.attrs == ObjectNode(a, full).attrs
      && |r.children| == 1 && ReadTransform(r.children[0]) == Some(t)
      && LeafObject(r)
  {
    TransformRoundTrip(t);
    TransformNodeNoObject(t);
  }

  /** The attributes of the placeholder `Building`: only the type is set. */
  function EmptyBuilding(): Attributes
  {
    Attributes("Building", "", "", "", "", "", "", "", "")
  }

  /** The 2023-04-25 `XmlBuilder.factory` that also adds an empty `Building`
      object after `DataSource`. */
  function FactoryWithBuilding(system: string, version: string, source: string): (r: Element)
    ensures r.tag == RootTag && r.attrs == Factory(system, version, source).attrs
    ensures |r.children| == 2 && r.children[0] == Factory(system, version, source).children[0]
    ensures r.children[1].tag == ObjectTag && r.children[1].children == []
    ensures r.children[1].attrs.keys == ShortKeys
  {
    var f := Factory(system, version, source);
    var r := AddChild(f, ObjectNode(EmptyBuilding(), false));
    assert r.children[0] == f.children[0];
    r
  }

  /** The placeholder holds "Building" as its type and "" everywhere else. */
  lemma FactoryWithBuildingAttrs(system: string, version: string, source: string)
    ensures var b := FactoryWithBuilding(system, version, source).children[1];
      && b.attrs.Get("type") == Some("Building")
      && b.attrs.Get("category") == Some("") && b.attrs.Get("name") == Some("")
      && b.attrs.Get("alias") == Some("") && b.attrs.Get("model") == Some("")
      && b.attrs.Get("time") == Some("") && b.attrs.Get("noted") == Some("")
      && b.attrs.Get("id") == None && b.attrs.Get("remark") == None
  {
    ShortObjectGets(EmptyBuilding());
    ShortObjectLacks(EmptyBuilding());
  }

  // ---------------------------------------------------------------------------
  // parse_ifc_collections
  // ---------------------------------------------------------------------------

  /** The record the drafts keep per `Ifc` collection: the collection, its class
      (the text before the first "/") and its local name (the second segment). */
  datatype IfcName = IfcName(data: string, head: string, name: string)

  /** `ifc_project`, `ifc_site`, `ifc_building` (`None` for the initial `{}`) and
      `ifc_building_storey`, keyed by local name. */
  datatype Parsed = Parsed(project: Option<IfcName>, site: Option<IfcName>, building: Option<IfcName>, storeys: Dict<IfcName>)

  /** An `Ifc` name without "/": `split("/")[1]` raises on it. */
  predicate Unsplittable(c: string)
  {
    IfcPrefix <= c && Sep !in c
  }

  const ProjectClass: string := "IfcProject"
  const SiteClass: string := "IfcSite"
  const BuildingClass: string := "IfcBuilding"
  const StoreyClass: string := "IfcBuildingStorey"

  /** Each class prefix is its class followed by the only separator it holds. */
  lemma ClassPrefixes()
    ensures ProjectPrefix == ProjectClass + [Sep] && Sep !in ProjectClass
    ensures SitePrefix == SiteClass + [Sep] && Sep !in SiteClass
    ensures BuildingPrefix == BuildingClass + [Sep] && Sep !in BuildingClass
    ensures StoreyPrefix == StoreyClass + [Sep] && Sep !in StoreyClass
  {
  }

  /** Under a class prefix, the split of `parse_ifc_collections` gives the class as
      `head` and the local name as `name`. */
  lemma ContentUnder(prefix: string, cls: string, c: string)
    requires prefix == cls + [Sep] && Sep !in cls && prefix <= c
    ensures Second(c).Ok? && IfcName(c, Head(c), Second(c).value) == IfcName(c, cls, NameUnder(prefix, c).value)
  {
    assert prefix[..|prefix| - 1] == cls;
    SplitUnderPrefix(prefix, c);
  }

  /** The four class prefixes start with "Ifc" and exclude one another. */
  lemma PrefixesDisjoint(c: string)
    ensures ProjectPrefix <= c || SitePrefix <= c || BuildingPrefix <= c || StoreyPrefix <= c ==> IfcPrefix <= c
    ensures ProjectPrefix <= c ==> !(SitePrefix <= c) && !(BuildingPrefix <= c) && !(StoreyPrefix <= c)
    ensures SitePrefix <= c ==> !(BuildingPrefix <= c) && !(StoreyPrefix <= c)
    ensures BuildingPrefix <= c ==> !(StoreyPrefix <= c)
  {
    if ProjectPrefix <= c || SitePrefix <= c || BuildingPrefix <= c || StoreyPrefix <= c {
      assert c[..3] == IfcPrefix;
    }
    if ProjectPrefix <= c {
      assert c[3] == 'P';
    }
    if SitePrefix <= c {
      assert c[3] == 'S';
    }
    if BuildingPrefix <= c {
      assert c[11] == Sep;
    }
  }

  /** One turn of the loop of `parse_ifc_collections`. Only `Ifc` names are split,
      and every one of them is, before the prefix tests. */
  function ParseStep(p: Parsed, c: string): (r: Result<Parsed>)
    ensures r.Err? <==> Unsplittable(c)
    ensures r.Err? ==> r.error == IndexError
  {
    if !(IfcPrefix <= c) then Ok(p)
    else
      var name :- Second(c);
      var content := IfcName(c, Head(c), name);
      if ProjectPrefix <= c then Ok(p.(project := Some(content)))
      else if SitePrefix <= c then Ok(p.(site := Some(content)))
      else if BuildingPrefix <= c then Ok(p.(building := Some(content)))
      else if StoreyPrefix <= c then Ok(p.(storeys := p.storeys.Put(name, content)))
      else Ok(p)
  }

  /** The four prefixes are tested in turn and at most one of them applies: a
      project or site name replaces the record, a building name replaces the
      building, a storey name is stored under its local name, and any other name
      leaves everything as it was. */
  lemma ParseStepFields(p: Parsed, c: string)
    requires !Unsplittable(c)
    ensures var r := ParseStep(p, c).value;
      && r.project == (if ProjectPrefix <= c then Some(IfcName(c, ProjectClass, DefineIfcProject(c).value)) else p.project)
      && r.site == (if SitePrefix <= c then Some(IfcName(c, SiteClass, DefineIfcSite(c).value)) else p.site)
      && r.building == (if BuildingPrefix <= c then Some(IfcName(c, BuildingClass, DefineIfcBuilding(c).value)) else p.building)
      && r.storeys == (if StoreyPrefix <= c
                       then p.storeys.Put(DefineIfcStorey(c).value, IfcName(c, StoreyClass, DefineIfcStorey(c).value))
                       else p.storeys)
  {
    PrefixesDisjoint(c);
    ClassPrefixes();
    if ProjectPrefix <= c {
      ContentUnder(ProjectPrefix, ProjectClass, c);
    } else if SitePrefix <= c {
      ContentUnder(SitePrefix, SiteClass, c);
    } else if BuildingPrefix <= c {
      ContentUnder(BuildingPrefix, BuildingClass, c);
    } else if StoreyPrefix <= c {
      ContentUnder(StoreyPrefix, StoreyClass, c);
    }
  }

  /** `parse_ifc_collections` over the collection names in order. */
  function ParseIfcCollections(names: seq<string>): (r: Result<Parsed>)
    ensures r.Err? ==> r.error == IndexError
    ensures r.Ok? ==> r.value.storeys.Valid()
    decreases |names|
  {
    if |names| == 0 then Ok(Parsed(None, None, None, Empty()))
    else
      var n := |names| - 1;
      var p :- ParseIfcCollections(names[..n]);
      ParseStep(p, names[n])
  }

  /** The scan raises exactly when some name is an `Ifc` name without "/". */
  lemma {:induction false} ParseFailsIff(names: seq<string>)
    ensures ParseIfcCollections(names).Err? <==> exists c :: c in names && Unsplittable(c)
    decreases |names|
  {
    if |names| > 0 {
      var n := |names| - 1;
      assert names == names[..n] + [names[n]];
      ParseFailsIff(names[..n]);
    }
  }

  /** The last of `names` that starts with `prefix`, if any. */
  function LastWithPrefix(prefix: string, names: seq<string>): (r: Option<string>)
    ensures r.Some? ==> prefix <= r.value
    decreases |names|
  {
    if |names| == 0 then None
    else
      var n := |names| - 1;
      if prefix <= names[n] then Some(names[n]) else LastWithPrefix(prefix, names[..n])
  }

  /** No name has the prefix exactly when none is found; otherwise the one found is
      a name with the prefix that no later name has. */
  lemma LastWithPrefixIsLast(prefix: string, names: seq<string>)
    ensures LastWithPrefix(prefix, names).None? <==> forall i :: 0 <= i < |names| ==> !(prefix <= names[i])
    ensures LastWithPrefix(prefix, names).Some? ==>
      exists i :: 0 <= i < |names| && names[i] == LastWithPrefix(prefix, names).value
        && forall j :: i < j < |names| ==> !(prefix <= names[j])
  {
    LastWithPrefixNone(prefix, names);
    if LastWithPrefix(prefix, names).Some? {
      var i := LastWithPrefixIndex(prefix, names);
    }
  }

  lemma {:induction false} LastWithPrefixNone(prefix: string, names: seq<string>)
    ensures LastWithPrefix(prefix, names).None? <==> forall i :: 0 <= i < |names| ==> !(prefix <= names[i])
    decreases |names|
  {
    if |names| > 0 {
      var n := |names| - 1;
      LastWithPrefixNone(prefix, names[..n]);
      assert forall i :: 0 <= i < n ==> names[..n][i] == names[i];
    }
  }

  /** The position `LastWithPrefix` picks. */
  lemma {:induction false} LastWithPrefixIndex(prefix: string, names: seq<string>) returns (i: nat)
    requires LastWithPrefix(prefix, names).Some?
    ensures i < |names| && names[i] == LastWithPrefix(prefix, names).value
    ensures forall j :: i < j < |names| ==> !(prefix <= names[j])
    decreases |names|
  {
    var n := |names| - 1;
    if prefix <= names[n] {
      i := n;
    } else {
      var init := names[..n];
      i := LastWithPrefixIndex(prefix, init);
      assert names[i] == init[i];
      forall j | i < j < |names| ensures !(prefix <= names[j]) {
        if j < n {
          assert names[j] == init[j];
        }
      }
    }
  }

  /** The local names of the storey collections, in order, repeats included. */
  function StoreyNames(names: seq<string>): (r: seq<string>)
    decreases |names|
  {
    if |names| == 0 then []
    else
      var n := |names| - 1;
      assert names == names[..n] + [names[n]];
      var d := DefineIfcStorey(names[n]);
      StoreyNames(names[..n]) + (if d.Some? then [d.value] else [])
  }

  /** The last storey collection whose local name is `key`, if any. */
  function LastStorey(names: seq<string>, key: string): (r: Option<string>)
    ensures r.Some? ==> DefineIfcStorey(r.value) == Some(key)
    decreases |names|
  {
    if |names| == 0 then None
    else
      var n := |names| - 1;
      assert names == names[..n] + [names[n]];
      if DefineIfcStorey(names[n]) == Some(key) then Some(names[n]) else LastStorey(names[..n], key)
  }

  /** `LastStorey` is one of the names, and no later name has the same local name. */
  lemma LastStoreyIsLast(names: seq<string>, key: string)
    requires LastStorey(names, key).Some?
    ensures exists i :: 0 <= i < |names| && names[i] == LastStorey(names, key).value
              && forall j :: i < j < |names| ==> DefineIfcStorey(names[j]) != Some(key)
  {
    var i := LastStoreyIndex(names, key);
  }

  /** The position `LastStorey` picks. */
  lemma {:induction false} LastStoreyIndex(names: seq<string>, key: string) returns (i: nat)
    requires LastStorey(names, key).Some?
    ensures i < |names| && names[i] == LastStorey(names, key).value
    ensures forall j :: i < j < |names| ==> DefineIfcStorey(names[j]) != Some(key)
    decreases |names|
  {
    var n := |names| - 1;
    if DefineIfcStorey(names[n]) == Some(key) {
      i := n;
    } else {
      var init := names[..n];
      assert LastStorey(names, key) == LastStorey(init, key);
      i := LastStoreyIndex(init, key);
      assert names[i] == init[i];
      forall j | i < j < |names| ensures DefineIfcStorey(names[j]) != Some(key) {
        if j < n {
          assert names[j] == init[j];
        }
      }
    }
  }

  /** A storey collection with local name `key` exists exactly when `key` is among
      the local names. */
  lemma {:induction false} LastStoreyNone(names: seq<string>, key: string)
    ensures LastStorey(names, key).None? <==> key !in StoreyNames(names)
    decreases |names|
  {
    if |names| > 0 {
      var n := |names| - 1;
      LastStoreyNone(names[..n], key);
    }
  }

  /** What `parse_ifc_collections` leaves in `ifc_building`. */
  function BuildingOf(names: seq<string>): Option<IfcName>
  {
    var l := LastWithPrefix(BuildingPrefix, names);
    if l.None? then None else Some(IfcName(l.value, BuildingClass, DefineIfcBuilding(l.value).value))
  }

  /** The entry `parse_ifc_collections` leaves under a storey's local name. */
  function StoreyOf(names: seq<string>, key: string): Option<IfcName>
  {
    var l := LastStorey(names, key);
    if l.None? then None else Some(IfcName(l.value, StoreyClass, key))
  }

  /** A failure-free scan of `names` is a failure-free scan of every prefix of it. */
  lemma ParseUnfold(names: seq<string>)
    requires |names| > 0 && ParseIfcCollections(names).Ok?
    ensures var n := |names| - 1;
      && ParseIfcCollections(names[..n]).Ok? && !Unsplittable(names[n])
      && ParseIfcCollections(names) == ParseStep(ParseIfcCollections(names[..n]).value, names[n])
  {
  }

  /** The last building name wins: `ifc_building` describes the last collection
      under `IfcBuilding/`, and is still `{}` when there is none. */
  lemma {:induction false} ParseBuilding(names: seq<string>)
    requires ParseIfcCollections(names).Ok?
    ensures ParseIfcCollections(names).value.building == BuildingOf(names)
    decreases |names|
  {
    if |names| > 0 {
      var n := |names| - 1;
      ParseBuildingSnoc(names);
      ParseBuilding(names[..n]);
    }
  }

  /** The building after the last name, in terms of the one before it. */
  lemma ParseBuildingSnoc(names: seq<string>)
    requires |names| > 0 && ParseIfcCollections(names).Ok?
    ensures var n := |names| - 1;
      && ParseIfcCollections(names[..n]).Ok?
      && ParseIfcCollections(names).value.building
         == (if BuildingPrefix <= names[n]
             then Some(IfcName(names[n], BuildingClass, DefineIfcBuilding(names[n]).value))
             else ParseIfcCollections(names[..n]).value.building)
  {
    var n := |names| - 1;
    ParseUnfold(names);
    ParseStepFields(ParseIfcCollections(names[..n]).value, names[n]);
  }

  /** Storeys are keyed by local name, in the order their first collection appears. */
  lemma {:induction false} ParseStoreyKeys(names: seq<string>)
    requires ParseIfcCollections(names).Ok?
    ensures ParseIfcCollections(names).value.storeys.keys == KeysOf(StoreyNames(names)).keys
    decreases |names|
  {
    if |names| > 0 {
      var n := |names| - 1;
      var init := names[..n];
      ParseStoreyKeysSnoc(names);
      ParseStoreyKeys(init);
      var d := DefineIfcStorey(names[n]);
      if d.Some? {
        var k := d.value;
        assert StoreyNames(names) == StoreyNames(init) + [k];
        KeysOfSnoc(StoreyNames(init), k);
        StoreyKeyKnown(init, k);
        assert KeysOf(StoreyNames(init)).Get(k).Some? <==> k in StoreyNames(init);
      } else {
        assert StoreyNames(names) == StoreyNames(init);
      }
    }
  }

  /** The storey keys after the last name, in terms of those before it. */
  lemma ParseStoreyKeysSnoc(names: seq<string>)
    requires |names| > 0 && ParseIfcCollections(names).Ok?
    ensures var n := |names| - 1;
      var d := DefineIfcStorey(names[n]);
      && ParseIfcCollections(names[..n]).Ok?
      && ParseIfcCollections(names).value.storeys.keys
         == (if d.Some?
             then ParseIfcCollections(names[..n]).value.storeys.Put(d.value, IfcName(names[n], StoreyClass, d.value)).keys
             else ParseIfcCollections(names[..n]).value.storeys.keys)
  {
    var n := |names| - 1;
    ParseUnfold(names);
    StepStoreyKeys(ParseIfcCollections(names[..n]).value, names[n]);
  }

  /** Adding a name to the list adds it to the dict's keys. */
  lemma KeysOfSnoc(xs: seq<string>, x: string)
    ensures KeysOf(xs + [x]) == KeysOf(xs).Put(x, ())
  {
    assert (xs + [x])[..|xs|] == xs;
  }

  /** A storey key is known after a scan exactly when some storey collection has
      that local name. */
  lemma StoreyKeyKnown(names: seq<string>, k: string)
    requires ParseIfcCollections(names).Ok?
    ensures (k in ParseIfcCollections(names).value.storeys.vals) == (k in StoreyNames(names))
  {
    ParseStoreyGets(names);
    LastStoreyNone(names, k);
    assert ParseIfcCollections(names).value.storeys.Get(k) == StoreyOf(names, k);
  }

  /** One step as seen from the storey keys. */
  lemma StepStoreyKeys(p: Parsed, c: string)
    requires !Unsplittable(c)
    ensures DefineIfcStorey(c).None? ==> ParseStep(p, c).value.storeys == p.storeys
    ensures DefineIfcStorey(c).Some? ==>
      ParseStep(p, c).value.storeys.keys == p.storeys.Put(DefineIfcStorey(c).value, IfcName(c, StoreyClass, DefineIfcStorey(c).value)).keys
  {
    ParseStepFields(p, c);
  }

  /** Each storey key holds the last collection with that local name: a later
      duplicate overwrites an earlier one. */
  lemma {:induction false} ParseStoreyGets(names: seq<string>)
    requires ParseIfcCollections(names).Ok?
    ensures forall key :: ParseIfcCollections(names).value.storeys.Get(key) == StoreyOf(names, key)
    decreases |names|
  {
    if |names| > 0 {
      var n := |names| - 1;
      var c := names[n];
      ParseUnfold(names);
      ParseStoreyGets(names[..n]);
      var p := ParseIfcCollections(names[..n]).value;
      forall key ensures ParseStep(p, c).value.storeys.Get(key) == StoreyOf(names, key) {
        StepStoreyGet(p, c, key);
        if DefineIfcStorey(c) == Some(key) {
          assert LastStorey(names, key) == Some(c);
        } else {
          assert LastStorey(names, key) == LastStorey(names[..n], key);
        }
      }
    }
  }

  /** One step as seen from one storey key. */
  lemma StepStoreyGet(p: Parsed, c: string, key: string)
    requires !Unsplittable(c)
    ensures ParseStep(p, c).value.storeys.Get(key)
      == if DefineIfcStorey(c) == Some(key) then Some(IfcName(c, StoreyClass, key)) else p.storeys.Get(key)
  {
    ParseStepFields(p, c);
  }

  // ---------------------------------------------------------------------------
  // add_element and the path cache
  // ---------------------------------------------------------------------------

  /** The path `iter_with_path` gives `Root`. */
  const RootPath: string := "root"

  /** The tree and the cache `elements` from path to element; an element reference
      is its address. */
  datatype Doc = Doc(root: Element, cache: map<string, Address>)

  /** Every cached address names an `Object` whose path is its key. */
  ghost predicate Wf(d: Doc)
  {
    forall p :: p in d.cache ==>
      && ValidAddr(d.root, d.cache[p])
      && NodeAt(d.root, d.cache[p]).tag == ObjectTag
      && PathAt(d.root, d.cache[p], RootPath) == p
  }

  /** The parent `add_element` resolves: `Root` while the cache is empty, whatever
      the path; else the cached element, and a path that is not cached raises. */
  function ParentAddr(d: Doc, parentPath: string): (r: Result<Address>)
    ensures r.Err? <==> d.cache != map[] && parentPath !in d.cache
    ensures r.Err? ==> r.error == KeyError(parentPath)
    ensures r.Ok? && d.cache == map[] ==> r.value == []
    ensures r.Ok? && d.cache != map[] ==> parentPath in d.cache && r.value == d.cache[parentPath]
  {
    if d.cache == map[] then Ok([])
    else if parentPath in d.cache then Ok(d.cache[parentPath])
    else Err(KeyError(parentPath))
  }

  /** `add_element` as written: append the `Object` under the parent, register the
      last `Object` of the whole tree under its path, then add the `Transform`,
      whose missing `position` raises. The result is the new document and the
      registered path (`content["this_path"]`). */
  function AddElement(d: Doc, parentPath: string, a: Attributes, t: Option<Transform>): (r: Result<(Doc, string)>)
    requires Wf(d)
    ensures r.Err? <==> (d.cache != map[] && parentPath !in d.cache) || t.None?
    ensures r.Err? ==> r.error == if d.cache != map[] && parentPath !in d.cache then KeyError(parentPath) else KeyError("position")
  {
    var parent :- ParentAddr(d, parentPath);
    var sub := ObjectNode(a, true);
    var root1 := AppendAt(d.root, parent, sub);
    var k := |NodeAt(d.root, parent).children|;
    AppendAtNew(d.root, parent, sub, RootPath);
    ObjectInside(root1, parent + [k]);
    var last := Last(GetElementsWithPaths(root1));
    if t.None? then Err(KeyError("position"))
    else Ok((Doc(AppendAt(root1, parent + [k], TransformNode(t.value)), d.cache[last.path := last.addr]), last.path))
  }

  /** Where `add_element` puts the new `Object`: after the parent's last child. */
  function NewAddr(d: Doc, parentPath: string): (r: Address)
    requires Wf(d) && ParentAddr(d, parentPath).Ok?
    ensures |r| > 0
  {
    var parent := ParentAddr(d, parentPath).value;
    parent + [|NodeAt(d.root, parent).children|]
  }

  /** The tree at the moment `add_element` looks for the last `Object`. */
  function TreeBeforeTransform(d: Doc, parentPath: string, a: Attributes): Element
    requires Wf(d) && ParentAddr(d, parentPath).Ok?
  {
    AppendAt(d.root, ParentAddr(d, parentPath).value, ObjectNode(a, true))
  }

  /** The steps of a successful `add_element`, one by one. */
  lemma AddElementSteps(d: Doc, parentPath: string, a: Attributes, t: Option<Transform>)
    requires Wf(d) && AddElement(d, parentPath, a, t).Ok?
    ensures var root1 := TreeBeforeTransform(d, parentPath, a);
      && ValidAddr(root1, NewAddr(d, parentPath))
      && NodeAt(root1, NewAddr(d, parentPath)) == ObjectNode(a, true)
      && LastObject(root1, RootPath, []).Some?
      && var last := LastObject(root1, RootPath, []).value;
      && ValidAddr(root1, last.addr) && NodeAt(root1, last.addr).tag == ObjectTag
      && PathAt(root1, last.addr, RootPath) == last.path
      && AddElement(d, parentPath, a, t).value
         == (Doc(AppendAt(root1, NewAddr(d, parentPath), TransformNode(t.value)), d.cache[last.path := last.addr]), last.path)
  {
    var parent := ParentAddr(d, parentPath).value;
    var sub := ObjectNode(a, true);
    var root1 := TreeBeforeTransform(d, parentPath, a);
    AppendAtNew(d.root, parent, sub, RootPath);
    ObjectInside(root1, NewAddr(d, parentPath));
    var last := LastObject(root1, RootPath, []).value;
    assert last.addr[0..] == last.addr;
  }

  /** The tree `add_element` leaves: the parent gains one last child, the `Object`
      with the nine attributes and its `Transform`. */
  lemma AddElementTree(d: Doc, parentPath: string, a: Attributes, t: Option<Transform>)
    requires Wf(d) && AddElement(d, parentPath, a, t).Ok?
    ensures AddElement(d, parentPath, a, t).value.0.root
      == AppendAt(d.root, ParentAddr(d, parentPath).value, Placed(a, t.value, true))
  {
    AddElementSteps(d, parentPath, a, t);
    AppendThenUnder(d.root, ParentAddr(d, parentPath).value, ObjectNode(a, true), TransformNode(t.value));
  }

  /** The path `add_element` registers and returns is that of the last `Object` in
      pre-order once the new one is in; that entry is the only one of the cache that
      changes. */
  lemma AddElementRegistersLast(d: Doc, parentPath: string, a: Attributes, t: Option<Transform>)
    requires Wf(d) && AddElement(d, parentPath, a, t).Ok?
    ensures var (d', p) := AddElement(d, parentPath, a, t).value;
      && p in d'.cache
      && LastObject(TreeBeforeTransform(d, parentPath, a), RootPath, []).Some?
      && LastObject(TreeBeforeTransform(d, parentPath, a), RootPath, []).value.path == p
      && LastObject(TreeBeforeTransform(d, parentPath, a), RootPath, []).value.addr == d'.cache[p]
      && (forall q :: q != p ==> (q in d'.cache <==> q in d.cache))
      && (forall q :: q != p && q in d.cache ==> d'.cache[q] == d.cache[q])
  {
    AddElementSteps(d, parentPath, a, t);
  }

  /** `add_element` keeps every cached address pointing at an `Object` with the
      path it is cached under. */
  lemma AddElementWf(d: Doc, parentPath: string, a: Attributes, t: Option<Transform>)
    requires Wf(d) && AddElement(d, parentPath, a, t).Ok?
    ensures Wf(AddElement(d, parentPath, a, t).value.0)
  {
    AddElementSteps(d, parentPath, a, t);
    var parent := ParentAddr(d, parentPath).value;
    var root1 := TreeBeforeTransform(d, parentPath, a);
    var b := NewAddr(d, parentPath);
    var last := LastObject(root1, RootPath, []).value;
    var d' := AddElement(d, parentPath, a, t).value.0;
    forall q | q in d'.cache
      ensures ValidAddr(d'.root, d'.cache[q]) && NodeAt(d'.root, d'.cache[q]).tag == ObjectTag
      ensures PathAt(d'.root, d'.cache[q], RootPath) == q
    {
      if q == last.path {
        AppendAtKeeps(root1, b, TransformNode(t.value), last.addr, RootPath);
      } else {
        AppendAtKeeps(d.root, parent, ObjectNode(a, true), d.cache[q], RootPath);
        AppendAtKeeps(root1, b, TransformNode(t.value), d.cache[q], RootPath);
      }
    }
  }

  /** The registered path is the new element's own path, cached at the new
      element, exactly when the parent lies on the rightmost `Object` chain; under
      any other parent the new `Object` is not registered at all. */
  lemma AddElementOwnPathIff(d: Doc, parentPath: string, a: Attributes, t: Option<Transform>)
    requires Wf(d) && AddElement(d, parentPath, a, t).Ok?
    ensures var (d', p) := AddElement(d, parentPath, a, t).value;
      var parent := ParentAddr(d, parentPath).value;
      (p == PathAt(d.root, parent, RootPath) + "/" + a.name && d'.cache[p] == NewAddr(d, parentPath))
      <==> RightmostChain(d.root, parent)
  {
    AddElementSteps(d, parentPath, a, t);
    var parent := ParentAddr(d, parentPath).value;
    var sub := ObjectNode(a, true);
    var b := NewAddr(d, parentPath);
    var root1 := TreeBeforeTransform(d, parentPath, a);
    var last := LastObject(root1, RootPath, []).value;
    var own := PathAt(d.root, parent, RootPath) + "/" + a.name;
    assert LeafObject(sub);
    ObjectNodeName(a, true);
    assert ChildPath(PathAt(d.root, parent, RootPath), sub) == own;
    AppendLastIff(d.root, parent, sub, RootPath);
  }

  /** `add_element` as evidently intended: the new `Object` is registered under its
      own path, `parent_path` + "/" + its name. */
  function AddElementFixed(d: Doc, parentPath: string, a: Attributes, t: Option<Transform>): (r: Result<(Doc, string)>)
    requires Wf(d)
    ensures r.Err? <==> (d.cache != map[] && parentPath !in d.cache) || t.None?
    ensures r.Err? ==> r.error == if d.cache != map[] && parentPath !in d.cache then KeyError(parentPath) else KeyError("position")
  {
    var parent :- ParentAddr(d, parentPath);
    var sub := ObjectNode(a, true);
    var root1 := AppendAt(d.root, parent, sub);
    var b := parent + [|NodeAt(d.root, parent).children|];
    AppendAtNew(d.root, parent, sub, RootPath);
    var own := ChildPath(PathAt(d.root, parent, RootPath), sub);
    if t.None? then Err(KeyError("position"))
    else Ok((Doc(AppendAt(root1, b, TransformNode(t.value)), d.cache[own := b]), own))
  }

  /** The corrected `add_element` builds the same tree, registers the new
      `Object` under its own path, and keeps the cache well formed. */
  lemma AddElementFixedRegistersNew(d: Doc, parentPath: string, a: Attributes, t: Option<Transform>)
    requires Wf(d) && AddElementFixed(d, parentPath, a, t).Ok?
    ensures var (d', p) := AddElementFixed(d, parentPath, a, t).value;
      var parent := ParentAddr(d, parentPath).value;
      && d'.root == AppendAt(d.root, parent, Placed(a, t.value, true))
      && p == PathAt(d.root, parent, RootPath) + "/" + a.name
      && p in d'.cache && d'.cache[p] == NewAddr(d, parentPath)
      && ValidAddr(d'.root, d'.cache[p]) && NodeAt(d'.root, d'.cache[p]) == Placed(a, t.value, true)
      && Wf(d')
  {
    var parent := ParentAddr(d, parentPath).value;
    var sub := ObjectNode(a, true);
    var root1 := AppendAt(d.root, parent, sub);
    var b := NewAddr(d, parentPath);
    var tn := TransformNode(t.value);
    var (d', p) := AddElementFixed(d, parentPath, a, t).value;
    AppendAtNew(d.root, parent, sub, RootPath);
    AppendThenUnder(d.root, parent, sub, tn);
    AppendAtNew(d.root, parent, Placed(a, t.value, true), RootPath);
    ObjectNodeName(a, true);
    forall q | q in d'.cache
      ensures ValidAddr(d'.root, d'.cache[q]) && NodeAt(d'.root, d'.cache[q]).tag == ObjectTag
      ensures PathAt(d'.root, d'.cache[q], RootPath) == q
    {
      if q == p {
        AppendAtKeeps(root1, b, tn, b, RootPath);
      } else {
        AppendAtKeeps(d.root, parent, sub, d.cache[q], RootPath);
        AppendAtKeeps(root1, b, tn, d.cache[q], RootPath);
      }
    }
  }

  /** On the rightmost `Object` chain, `add_element` as written and as intended
      give the same document and path. */
  lemma AddElementAgreesOnChain(d: Doc, parentPath: string, a: Attributes, t: Option<Transform>)
    requires Wf(d) && AddElement(d, parentPath, a, t).Ok?
    requires RightmostChain(d.root, ParentAddr(d, parentPath).value)
    ensures AddElement(d, parentPath, a, t) == AddElementFixed(d, parentPath, a, t)
  {
    AddElementSteps(d, parentPath, a, t);
    AddElementOwnPathIff(d, parentPath, a, t);
    ObjectNodeName(a, true);
  }

  /** On the rightmost chain `add_element` appends the placed `Object`, caches it
      under its own path and leaves every other entry as it was. */
  lemma AddElementOnChain(d: Doc, parentPath: string, a: Attributes, t: Option<Transform>)
    requires Wf(d) && AddElement(d, parentPath, a, t).Ok?
    requires RightmostChain(d.root, ParentAddr(d, parentPath).value)
    ensures var (d', p) := AddElement(d, parentPath, a, t).value;
      && d'.root == AppendAt(d.root, ParentAddr(d, parentPath).value, Placed(a, t.value, true))
      && p == PathAt(d.root, ParentAddr(d, parentPath).value, RootPath) + "/" + a.name
      && d'.cache == d.cache[p := NewAddr(d, parentPath)]
  {
    AddElementSteps(d, parentPath, a, t);
    AddElementOwnPathIff(d, parentPath, a, t);
    AppendThenUnder(d.root, ParentAddr(d, parentPath).value, ObjectNode(a, true), TransformNode(t.value));
  }

  /** Off the rightmost `Object` chain `add_element` returns, and caches again, the
      path of the `Object` that was last before the call; the new element's own path
      is not registered. */
  lemma AddElementOffChainRepeats(d: Doc, parentPath: string, a: Attributes, t: Option<Transform>)
    requires Wf(d) && AddElement(d, parentPath, a, t).Ok?
    requires !RightmostChain(d.root, ParentAddr(d, parentPath).value)
    ensures LastObject(d.root, RootPath, []).Some?
    ensures var (d', p) := AddElement(d, parentPath, a, t).value;
      var last := LastObject(d.root, RootPath, []).value;
      && d'.root == AppendAt(d.root, ParentAddr(d, parentPath).value, Placed(a, t.value, true))
      && p == last.path
      && d'.cache == d.cache[p := last.addr]
  {
    AddElementSteps(d, parentPath, a, t);
    AddElementTree(d, parentPath, a, t);
    AppendOffChainKeepsLast(d.root, ParentAddr(d, parentPath).value, ObjectNode(a, true), RootPath, []);
  }

  /** A record whose name, alias and model are all `n`. */
  function Named(n: string): Attributes
  {
    Attributes("Object", "0", n, n, "", "", n, "", "created")
  }

  /** The paths of the counterexample: building `B` under `Root`, storeys `S1` and
      `S2` under `B`, room `R` under `S1`. */
  const PathB: string := RootPath + "/" + "B"
  const PathS1: string := PathB + "/" + "S1"
  const PathS2: string := PathB + "/" + "S2"
  const PathR: string := PathS1 + "/" + "R"

  lemma PathsDistinct()
    ensures PathB != PathS1 && PathB != PathS2 && PathB != PathR
    ensures PathS1 != PathS2 && PathS1 != PathR && PathS2 != PathR
  {
    assert |PathB| == 6 && |PathS1| == 9 && |PathS2| == 9 && |PathR| == 11;
    assert PathS1[8] == '1' && PathS2[8] == '2';
  }

  /** The documents `add_element` builds on the way, from a `factory` tree `f`. */
  function BuildingDoc(f: Element, t: Transform): Doc
  {
    Doc(AddChild(f, Placed(Named("B"), t, true)), map[PathB := [1]])
  }

  function OneStoreyDoc(f: Element, t: Transform): Doc
  {
    Doc(AddChild(f, AddChild(Placed(Named("B"), t, true), Placed(Named("S1"), t, true))), map[PathB := [1], PathS1 := [1, 1]])
  }

  function TwoStoreyDoc(f: Element, t: Transform): Doc
  {
    Doc(AddChild(f, AddChild(AddChild(Placed(Named("B"), t, true), Placed(Named("S1"), t, true)), Placed(Named("S2"), t, true))),
        map[PathB := [1], PathS1 := [1, 1], PathS2 := [1, 2]])
  }

  /** The document after the room call: the room under `S1`, and the cache as each
      version leaves it. */
  function RoomDoc(f: Element, t: Transform, fixed: bool): Doc
    requires |f.children| == 1
  {
    var d3 := TwoStoreyDoc(f, t);
    assert d3.root.children[1].children[1] == Placed(Named("S1"), t, true);
    assert [1, 1][1..] == [1] && [1][1..] == [];
    Doc(AppendAt(d3.root, [1, 1], Placed(Named("R"), t, true)), if fixed then d3.cache[PathR := [1, 1, 1]] else d3.cache)
  }

  /** A call whose parent ends the rightmost chain, in terms of the parent's address:
      both versions append there and cache the new `Object` under its own path. */
  lemma ChainCall(d: Doc, parentPath: string, a: Attributes, t: Transform, parent: Address, d': Doc, p: string)
    requires Wf(d) && ParentAddr(d, parentPath) == Ok(parent)
    requires ValidAddr(d.root, parent) && RightmostChain(d.root, parent)
    requires d'.root == AppendAt(d.root, parent, Placed(a, t, true))
    requires p == PathAt(d.root, parent, RootPath) + "/" + a.name
    requires d'.cache == d.cache[p := parent + [|NodeAt(d.root, parent).children|]]
    ensures AddElement(d, parentPath, a, Some(t)) == Ok((d', p))
    ensures AddElementFixed(d, parentPath, a, Some(t)) == Ok((d', p))
    ensures Wf(d')
  {
    AddElementOnChain(d, parentPath, a, Some(t));
    AddElementAgreesOnChain(d, parentPath, a, Some(t));
    AddElementWf(d, parentPath, a, Some(t));
  }

  /** The building's place in the documents: address `[1]`, path `PathB`, the end of
      the rightmost chain, with its `Transform` and then the storeys as children. */
  lemma BuildingShape(f: Element, t: Transform)
    requires |f.children| == 1
    ensures var b := Placed(Named("B"), t, true);
      && AddChild(f, b).children[1] == b
      && ValidAddr(AddChild(f, b), [1]) && PathAt(AddChild(f, b), [1], RootPath) == PathB
      && RightmostChain(AddChild(f, b), [1])
  {
    var b := Placed(Named("B"), t, true);
    var r := AddChild(f, b);
    assert [1][1..] == [];
    assert r.children[1] == b;
    ObjectNodeName(Named("B"), true);
    assert ChildPath(RootPath, b) == PathB;
  }

  lemma OneStoreyShape(f: Element, t: Transform)
    requires |f.children| == 1
    ensures var d1 := BuildingDoc(f, t);
      && ValidAddr(d1.root, [1]) && PathAt(d1.root, [1], RootPath) == PathB
      && RightmostChain(d1.root, [1])
      && |NodeAt(d1.root, [1]).children| == 1
      && AppendAt(d1.root, [1], Placed(Named("S1"), t, true)) == OneStoreyDoc(f, t).root
  {
    var d1 := BuildingDoc(f, t);
    BuildingShape(f, t);
    PlacedFacts(Named("B"), t, true);
    assert [1][1..] == [];
    assert AppendAt(d1.root, [1], Placed(Named("S1"), t, true)).children == OneStoreyDoc(f, t).root.children;
  }

  lemma TwoStoreyShape(f: Element, t: Transform)
    requires |f.children| == 1
    ensures var d2 := OneStoreyDoc(f, t);
      && ValidAddr(d2.root, [1]) && PathAt(d2.root, [1], RootPath) == PathB
      && RightmostChain(d2.root, [1])
      && |NodeAt(d2.root, [1]).children| == 2
      && AppendAt(d2.root, [1], Placed(Named("S2"), t, true)) == TwoStoreyDoc(f, t).root
  {
    var d2 := OneStoreyDoc(f, t);
    var b := AddChild(Placed(Named("B"), t, true), Placed(Named("S1"), t, true));
    assert [1][1..] == [];
    assert d2.root.children[1] == b;
    ObjectNodeName(Named("B"), true);
    assert ChildPath(RootPath, b) == PathB;
    PlacedFacts(Named("B"), t, true);
    assert AppendAt(d2.root, [1], Placed(Named("S2"), t, true)).children == TwoStoreyDoc(f, t).root.children;
  }

  /** The building goes under `Root`, the cache being empty, and is cached under its
      own path; both versions agree. */
  lemma BuildingCall(f: Element, t: Transform)
    requires f.tag == RootTag && |f.children| == 1
    ensures AddElement(Doc(f, map[]), RootPath, Named("B"), Some(t)) == Ok((BuildingDoc(f, t), PathB))
    ensures AddElementFixed(Doc(f, map[]), RootPath, Named("B"), Some(t)) == Ok((BuildingDoc(f, t), PathB))
    ensures Wf(BuildingDoc(f, t))
  {
    var d0 := Doc(f, map[]);
    assert [] + [1] == [1];
    assert map[][PathB := [1]] == BuildingDoc(f, t).cache;
    ChainCall(d0, RootPath, Named("B"), t, [], BuildingDoc(f, t), PathB);
  }

  /** The first storey goes under the building, which ends the rightmost chain. */
  lemma StoreyOneCall(f: Element, t: Transform)
    requires f.tag == RootTag && |f.children| == 1 && Wf(BuildingDoc(f, t))
    ensures AddElement(BuildingDoc(f, t), PathB, Named("S1"), Some(t)) == Ok((OneStoreyDoc(f, t), PathS1))
    ensures AddElementFixed(BuildingDoc(f, t), PathB, Named("S1"), Some(t)) == Ok((OneStoreyDoc(f, t), PathS1))
    ensures Wf(OneStoreyDoc(f, t))
  {
    var d1 := BuildingDoc(f, t);
    OneStoreyShape(f, t);
    assert PathB in d1.cache;
    assert [1] + [1] == [1, 1];
    assert d1.cache[PathS1 := [1, 1]] == OneStoreyDoc(f, t).cache;
    ChainCall(d1, PathB, Named("S1"), t, [1], OneStoreyDoc(f, t), PathS1);
  }

  /** The second storey goes under the building too, after the first. */
  lemma StoreyTwoCall(f: Element, t: Transform)
    requires f.tag == RootTag && |f.children| == 1 && Wf(OneStoreyDoc(f, t))
    ensures AddElement(OneStoreyDoc(f, t), PathB, Named("S2"), Some(t)) == Ok((TwoStoreyDoc(f, t), PathS2))
    ensures AddElementFixed(OneStoreyDoc(f, t), PathB, Named("S2"), Some(t)) == Ok((TwoStoreyDoc(f, t), PathS2))
    ensures Wf(TwoStoreyDoc(f, t))
  {
    var d2 := OneStoreyDoc(f, t);
    TwoStoreyShape(f, t);
    assert PathB in d2.cache;
    assert [1] + [2] == [1, 2];
    assert d2.cache[PathS2 := [1, 2]] == TwoStoreyDoc(f, t).cache;
    ChainCall(d2, PathB, Named("S2"), t, [1], TwoStoreyDoc(f, t), PathS2);
  }

  /** A call whose parent is off the rightmost chain, in terms of the parent's address
      and the last `Object` before the call: the version as written registers that
      `Object`'s path again. */
  lemma OffChainCall(d: Doc, parentPath: string, a: Attributes, t: Transform, parent: Address, h: Hit, d': Doc)
    requires Wf(d) && ParentAddr(d, parentPath) == Ok(parent)
    requires ValidAddr(d.root, parent) && !RightmostChain(d.root, parent)
    requires LastObject(d.root, RootPath, []) == Some(h)
    requires d'.root == AppendAt(d.root, parent, Placed(a, t, true))
    requires h.path in d.cache && d.cache[h.path] == h.addr && d'.cache == d.cache
    ensures AddElement(d, parentPath, a, Some(t)) == Ok((d', h.path))
  {
    assert d.cache[h.path := h.addr] == d.cache;
    AddElementOffChainRepeats(d, parentPath, a, Some(t));
  }

  /** After the three calls `S1` is cached at `[1, 1]`, off the rightmost chain. */
  lemma FirstStoreyOffChain(f: Element, t: Transform)
    requires |f.children| == 1
    ensures var d3 := TwoStoreyDoc(f, t);
      && ParentAddr(d3, PathS1) == Ok([1, 1])
      && ValidAddr(d3.root, [1, 1]) && PathAt(d3.root, [1, 1], RootPath) == PathS1
      && |NodeAt(d3.root, [1, 1]).children| == 1
      && !RightmostChain(d3.root, [1, 1])
  {
    var d3 := TwoStoreyDoc(f, t);
    var b3 := d3.root.children[1];
    var s1 := Placed(Named("S1"), t, true);
    var s2 := Placed(Named("S2"), t, true);
    assert [1][1..] == [] && [1, 1][1..] == [1];
    PathsDistinct();
    assert PathS1 in d3.cache && d3.cache[PathS1] == [1, 1];
    ObjectNodeName(Named("B"), true);
    ObjectNodeName(Named("S1"), true);
    PlacedFacts(Named("B"), t, true);
    PlacedFacts(Named("S1"), t, true);
    PlacedFacts(Named("S2"), t, true);
    assert b3.children[1] == s1 && b3.children[2] == s2;
    assert ChildPath(RootPath, b3) == PathB && ChildPath(PathB, s1) == PathS1;
    assert !NoObject(b3.children[2]);
    assert !RightmostChain(b3, [1]);
  }

  /** After the three calls `S2` is the last `Object`. */
  lemma SecondStoreyLast(f: Element, t: Transform)
    requires |f.children| == 1
    ensures LastObject(TwoStoreyDoc(f, t).root, RootPath, []) == Some(Hit(Placed(Named("S2"), t, true), PathS2, [1, 2]))
  {
    var d2 := OneStoreyDoc(f, t);
    var pS2 := Placed(Named("S2"), t, true);
    TwoStoreyShape(f, t);
    PlacedFacts(Named("S2"), t, true);
    ObjectNodeName(Named("S2"), true);
    AppendOnChain(d2.root, [1], pS2, RootPath, []);
    assert ChildPath(PathB, pS2) == PathS2;
    assert [] + [1] + [2] == [1, 2];
  }

  /** As written, the room under `S1` registers `S2`'s path again. */
  lemma RoomCall(f: Element, t: Transform)
    requires f.tag == RootTag && |f.children| == 1 && Wf(TwoStoreyDoc(f, t))
    ensures AddElement(TwoStoreyDoc(f, t), PathS1, Named("R"), Some(t)) == Ok((RoomDoc(f, t, false), PathS2))
  {
    var d3 := TwoStoreyDoc(f, t);
    FirstStoreyOffChain(f, t);
    SecondStoreyLast(f, t);
    OffChainCall(d3, PathS1, Named("R"), t, [1, 1], Hit(Placed(Named("S2"), t, true), PathS2, [1, 2]), RoomDoc(f, t, false));
  }

  /** As corrected, the room under `S1` is cached under its own path. */
  lemma RoomCallFixed(f: Element, t: Transform)
    requires f.tag == RootTag && |f.children| == 1 && Wf(TwoStoreyDoc(f, t))
    ensures AddElementFixed(TwoStoreyDoc(f, t), PathS1, Named("R"), Some(t)) == Ok((RoomDoc(f, t, true), PathR))
  {
    var d3 := TwoStoreyDoc(f, t);
    FirstStoreyOffChain(f, t);
    assert NewAddr(d3, PathS1) == [1, 1, 1];
    AddElementFixedRegistersNew(d3, PathS1, Named("R"), Some(t));
    ObjectNodeName(Named("R"), true);
  }

  /** The caches the room call leaves: as written, none of them holds `R`'s path. */
  lemma RoomCaches(f: Element, t: Transform)
    requires |f.children| == 1
    ensures RoomDoc(f, t, false).cache == map[PathB := [1], PathS1 := [1, 1], PathS2 := [1, 2]]
    ensures PathR !in RoomDoc(f, t, false).cache
    ensures RoomDoc(f, t, true).cache == map[PathB := [1], PathS1 := [1, 1], PathS2 := [1, 2], PathR := [1, 1, 1]]
  {
    PathsDistinct();
  }

  /** `add_element` as written, from `factory` on: building `B` (under `Root`, the
      cache being empty), storeys `S1` and `S2` under the path returned for `B`, then
      room `R` under the path returned for `S1`. The room call returns `S2`'s path,
      and the room's own path is never cached. */
  lemma AddElementMissesRoomUnderFirstStorey(system: string, version: string, source: string, t: Transform)
    ensures var f := Factory(system, version, source);
      && AddElement(Doc(f, map[]), RootPath, Named("B"), Some(t)) == Ok((BuildingDoc(f, t), PathB))
      && Wf(BuildingDoc(f, t))
      && AddElement(BuildingDoc(f, t), PathB, Named("S1"), Some(t)) == Ok((OneStoreyDoc(f, t), PathS1))
      && Wf(OneStoreyDoc(f, t))
      && AddElement(OneStoreyDoc(f, t), PathB, Named("S2"), Some(t)) == Ok((TwoStoreyDoc(f, t), PathS2))
      && Wf(TwoStoreyDoc(f, t))
      && AddElement(TwoStoreyDoc(f, t), PathS1, Named("R"), Some(t)) == Ok((RoomDoc(f, t, false), PathS2))
      && RoomDoc(f, t, false).cache == map[PathB := [1], PathS1 := [1, 1], PathS2 := [1, 2]]
      && PathR !in RoomDoc(f, t, false).cache
  {
    var f := Factory(system, version, source);
    BuildingCall(f, t);
    StoreyOneCall(f, t);
    StoreyTwoCall(f, t);
    RoomCall(f, t);
    RoomCaches(f, t);
  }

  /** The corrected `add_element` on the same calls: the first three agree with the
      version as written, and the room is cached under its own path, at its own
      address below `S1`. */
  lemma AddElementFixedFindsRoomUnderFirstStorey(system: string, version: string, source: string, t: Transform)
    ensures var f := Factory(system, version, source);
      && AddElementFixed(Doc(f, map[]), RootPath, Named("B"), Some(t)) == Ok((BuildingDoc(f, t), PathB))
      && Wf(BuildingDoc(f, t))
      && AddElementFixed(BuildingDoc(f, t), PathB, Named("S1"), Some(t)) == Ok((OneStoreyDoc(f, t), PathS1))
      && Wf(OneStoreyDoc(f, t))
      && AddElementFixed(OneStoreyDoc(f, t), PathB, Named("S2"), Some(t)) == Ok((TwoStoreyDoc(f, t), PathS2))
      && Wf(TwoStoreyDoc(f, t))
      && AddElementFixed(TwoStoreyDoc(f, t), PathS1, Named("R"), Some(t)) == Ok((RoomDoc(f, t, true), PathR))
      && RoomDoc(f, t, true).cache == map[PathB := [1], PathS1 := [1, 1], PathS2 := [1, 2], PathR := [1, 1, 1]]
  {
    var f := Factory(system, version, source);
    BuildingCall(f, t);
    StoreyOneCall(f, t);
    StoreyTwoCall(f, t);
    RoomCallFixed(f, t);
    RoomCaches(f, t);
  }
}
