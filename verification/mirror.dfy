/** The IFCBuilder and IFCETree drafts: one new instance per parsed entry, the
    instances parented the way the entries say, their transforms copied, and one
    attribute-holding `Element` per instance. Blender is replaced by tables: the
    instance created for key `k` is named `k`, the parent links and transforms of
    the instances are dicts keyed by instance name. */
module Mirror {
  import opened Common
  import opened Dicts
  import opened ParentMap

  /** The parser's `ifc_info`: `None` for the root collection unless an object
      has its name, an entry for every object. */
  type Info = Dict<Option<Entry>>

  /** Every key holds an entry (no `None` left). */
  ghost predicate Complete(info: Info)
  {
    forall k :: info.Get(k).Some? ==> info.Get(k).value.Some?
  }

  /** Every key holds an entry whose instance is the object built for that key. */
  ghost predicate Built(info: Info)
  {
    forall k :: info.Get(k).Some? ==> info.Get(k).value.Some? && info.Get(k).value.value.inst == Some(k)
  }

  /** Every truthy `ifc_parent` names a key that holds an entry. */
  ghost predicate Resolves(info: Info)
  {
    forall k :: ParentOf(info, k).Some? ==>
      info.Get(ParentOf(info, k).value).Some? && info.Get(ParentOf(info, k).value).value.Some?
  }

  /** The truthy parent an entry names, if any. */
  function ParentOf(info: Info, k: string): Option<string>
  {
    if info.Get(k).Some? && info.Get(k).value.Some? && Truthy(info.Get(k).value.value.parent)
    then info.Get(k).value.value.parent else None
  }

  // ---------------------------------------------------------------------------
  // IFCBuilder (2023-05-02, 2023-05-04): instances recorded in the entries
  // ---------------------------------------------------------------------------

  function BuildKeys(info: Info, keys: seq<string>): (r: Result<Info>)
    requires info.Valid()
    requires forall k :: k in keys ==> info.Get(k).Some?
    ensures r.Ok? <==> forall k :: k in keys ==> info.Get(k).value.Some?
    ensures r.Ok? ==> r.value.Valid() && r.value.keys == info.keys
    ensures r.Ok? ==> forall k :: r.value.Get(k) == (if k in keys then Some(Some(info.Get(k).value.value.(inst := Some(k)))) else info.Get(k))
    ensures r.Err? ==> r.error == TypeError
    decreases |keys|
  {
    if |keys| == 0 then Ok(info)
    else
      var n := |keys| - 1;
      var k := keys[n];
      assert keys == keys[..n] + [k];
      match BuildKeys(info, keys[..n])
      case Err(e) => Err(e)
      case Ok(before) =>
        match before.Get(k)
        case Some(Some(e)) => Ok(before.Put(k, Some(e.(inst := Some(k)))))
        case _ => Err(TypeError)
  }

  /** `IFCBuilder.build`: an empty table builds nothing; otherwise every entry
      records the instance created for its key, and a `None` entry (the root
      collection without a same-named object) raises `TypeError`. */
  function Build(info: Info): (r: Result<Info>)
    requires info.Valid()
    ensures r.Ok? <==> Complete(info)
    ensures r.Ok? ==> r.value.Valid() && r.value.keys == info.keys && Built(r.value)
    ensures r.Ok? ==> forall k :: info.Get(k).Some? ==> r.value.Get(k) == Some(Some(info.Get(k).value.value.(inst := Some(k))))
    ensures r.Err? ==> r.error == TypeError
  {
    assert forall k :: info.Get(k).Some? <==> k in info.keys;
    if |info.keys| == 0 then Ok(info) else BuildKeys(info, info.keys)
  }

  function AssembleKeys(info: Info, keys: seq<string>, links: Dict<string>): (r: Result<Dict<string>>)
    requires forall k :: k in keys ==> info.Get(k).Some?
    ensures Built(info) ==> (r.Ok? <==> forall k :: k in keys && ParentOf(info, k).Some? ==> info.Get(ParentOf(info, k).value).Some?)
    ensures Built(info) && r.Ok? ==> forall k :: r.value.Get(k) == (if k in keys && ParentOf(info, k).Some? then ParentOf(info, k) else links.Get(k))
    ensures links.Valid() && r.Ok? ==> r.value.Valid()
    ensures r.Err? ==> r.error.KeyError? || r.error.TypeError?
    decreases |keys|
  {
    if |keys| == 0 then Ok(links)
    else
      var n := |keys| - 1;
      var k := keys[n];
      assert keys == keys[..n] + [k];
      match AssembleKeys(info, keys[..n], links)
      case Err(e) => Err(e)
      case Ok(before) =>
        match info.Get(k).value
        case None => Err(TypeError)
        case Some(e) =>
          if e.inst.None? then Err(KeyError("ifc_inst"))
          else if !Truthy(e.parent) then Ok(before)
          else
            match info.Get(e.parent.value)
            case None => Err(KeyError(e.parent.value))
            case Some(None) => Err(TypeError)
            case Some(Some(pe)) =>
              if pe.inst.None? then Err(KeyError("ifc_inst"))
              else Ok(before.Put(e.inst.value, pe.inst.value))
  }

  /** `IFCBuilder.assemble`: each instance is parented to the instance of its
      entry's `ifc_parent`; a falsy parent leaves the instance unparented (the
      draft that detaches it only moves it between collections); a parent with no
      entry raises `KeyError`. On built entries the instance tree mirrors
      `ifc_parent` exactly. */
  function Assemble(info: Info): (r: Result<Dict<string>>)
    requires info.Valid()
    ensures Built(info) ==> (r.Ok? <==> Resolves(info))
    ensures Built(info) && r.Ok? ==> forall k :: r.value.Get(k) == ParentOf(info, k)
    ensures r.Ok? ==> r.value.Valid()
    ensures r.Err? ==> r.error.KeyError? || r.error.TypeError?
  {
    assert forall k :: info.Get(k).Some? <==> k in info.keys;
    AssembleKeys(info, info.keys, Empty())
  }

  function SetTransformKeys(info: Info, keys: seq<string>, placed: Dict<Transform>): (r: Result<Dict<Transform>>)
    requires forall k :: k in keys ==> info.Get(k).Some?
    ensures Built(info) ==> r.Ok?
    ensures Built(info) ==> forall k :: r.value.Get(k) == (if k in keys then Some(info.Get(k).value.value.transform) else placed.Get(k))
    ensures placed.Valid() && r.Ok? ==> r.value.Valid()
    ensures r.Err? ==> r.error.KeyError? || r.error.TypeError?
    decreases |keys|
  {
    if |keys| == 0 then Ok(placed)
    else
      var n := |keys| - 1;
      var k := keys[n];
      assert keys == keys[..n] + [k];
      match SetTransformKeys(info, keys[..n], placed)
      case Err(e) => Err(e)
      case Ok(before) =>
        match info.Get(k).value
        case None => Err(TypeError)
        case Some(e) =>
          if e.inst.None? then Err(KeyError("ifc_inst"))
          else Ok(before.Put(e.inst.value, e.transform))
  }

  /** `IFCBuilder.set_transform`: every instance takes its entry's world position,
      rotation and scale, unchanged. */
  function SetTransform(info: Info): (r: Result<Dict<Transform>>)
    requires info.Valid()
    ensures Built(info) ==> r.Ok? && r.value.Valid()
    ensures Built(info) ==> forall k :: info.Get(k).Some? ==> r.value.Get(k) == Some(info.Get(k).value.value.transform)
    ensures Built(info) ==> forall k :: info.Get(k).None? ==> r.value.Get(k).None?
    ensures r.Err? ==> r.error.KeyError? || r.error.TypeError?
  {
    assert forall k :: info.Get(k).Some? <==> k in info.keys;
    SetTransformKeys(info, info.keys, Empty())
  }

  /** What the builder leaves behind: the entries (with their instances), the
      instances' parent links and the instances' transforms. */
  datatype Outcome = Outcome(info: Info, links: Dict<string>, transforms: Dict<Transform>)

  /** `IFCBuilder.execute`: `is_executed` is set before the guard, so it is true
      whatever happens; without an executed parser nothing is built and the
      parser's table passes through untouched. */
  function BuilderExecute(parserExecuted: bool, info: Info): (r: (bool, Result<Outcome>))
    requires info.Valid()
    ensures r.0
    ensures !parserExecuted ==> r.1 == Ok(Outcome(info, Empty(), Empty()))
    ensures parserExecuted ==> (r.1.Ok? <==> Complete(info) && Resolves(info))
    ensures parserExecuted && !Complete(info) ==> r.1 == Err(TypeError)
    ensures parserExecuted && r.1.Ok? ==> Built(r.1.value.info) && r.1.value.info.keys == info.keys
    ensures parserExecuted && r.1.Ok? ==> forall k :: r.1.value.links.Get(k) == ParentOf(info, k)
    ensures parserExecuted && r.1.Ok? ==> forall k :: info.Get(k).Some? ==>
              r.1.value.transforms.Get(k) == Some(info.Get(k).value.value.transform)
  {
    if !parserExecuted then (true, Ok(Outcome(info, Empty(), Empty())))
    else
      match Build(info)
      case Err(e) => (true, Err(e))
      case Ok(built) =>
        assert forall k :: ParentOf(built, k) == ParentOf(info, k);
        assert Resolves(built) <==> Resolves(info) by {
          assert forall k :: built.Get(k).Some? <==> info.Get(k).Some?;
        }
        match Assemble(built)
        case Err(e) => (true, Err(e))
        case Ok(links) =>
          match SetTransform(built)
          case Err(e) => (true, Err(e))
          case Ok(placed) => (true, Ok(Outcome(built, links, placed)))
  }

  // ---------------------------------------------------------------------------
  // IFCETree.Element: an attribute store
  // ---------------------------------------------------------------------------

  /** `IFCETree.Element`: the instance it wraps and its attribute dict. */
  datatype Element = Element(obj: string, attributes: Dict<string>)
  {
    /** `set_attr`: insert or overwrite. */
    function SetAttr(key: string, value: string): (r: Element)
      ensures r.obj == obj && r.attributes.Get(key) == Some(value)
      ensures forall k :: k != key ==> r.attributes.Get(k) == attributes.Get(k)
      ensures attributes.Valid() ==> r.attributes.Valid()
    {
      Element(obj, attributes.Put(key, value))
    }

    /** `remove_attr`: delete when present, otherwise nothing happens. */
    function RemoveAttr(key: string): (r: Element)
      ensures r.obj == obj && r.attributes.Get(key) == None
      ensures forall k :: k != key ==> r.attributes.Get(k) == attributes.Get(k)
      ensures attributes.Valid() ==> r.attributes.Valid()
    {
      if key in attributes.vals then Element(obj, attributes.Pop(key).value) else this
    }

    /** `update_attr`: overwrite only a key that is already there. */
    function UpdateAttr(key: string, value: string): (r: Element)
      ensures r.obj == obj && r.attributes.keys == attributes.keys
      ensures attributes.Get(key).Some? ==> r.attributes.Get(key) == Some(value)
      ensures attributes.Get(key).None? ==> r == this
      ensures forall k :: k != key ==> r.attributes.Get(k) == attributes.Get(k)
      ensures attributes.Valid() ==> r.attributes.Valid()
    {
      if key in attributes.vals then Element(obj, attributes.Put(key, value)) else this
    }
  }

  /** Dropping a key that is not there gives back the same list. */
  lemma {:induction false} WithoutAbsent(ks: seq<string>, k: string)
    requires k !in ks
    ensures Without(ks, k) == ks
  {
    if |ks| > 0 {
      assert ks == [ks[0]] + ks[1..];
      WithoutAbsent(ks[1..], k);
    }
  }

  /** Setting a fresh attribute and removing it again restores the element
      exactly: keys, their order and values. */
  lemma SetThenRemove(el: Element, key: string, value: string)
    requires el.attributes.Valid() && el.attributes.Get(key).None?
    ensures el.SetAttr(key, value).RemoveAttr(key) == el
  {
    var a := el.attributes;
    WithoutAbsent(a.keys, key);
    WithoutFacts(a.keys + [key], key);
    assert Without(a.keys + [key], key) == a.keys by {
      WithoutAppend(a.keys, key);
    }
    assert a.vals[key := value] - {key} == a.vals;
  }

  lemma {:induction false} WithoutAppend(ks: seq<string>, k: string)
    ensures Without(ks + [k], k) == Without(ks, k)
  {
    if |ks| == 0 {
      assert [k][1..] == [];
    } else {
      assert (ks + [k])[1..] == ks[1..] + [k];
      WithoutAppend(ks[1..], k);
    }
  }

  /** Removing twice is removing once. */
  lemma RemoveIdempotent(el: Element, key: string)
    ensures el.RemoveAttr(key).RemoveAttr(key) == el.RemoveAttr(key)
  {
  }

  /** The attribute names `add_properties` writes, in order; `id` is not among them. */
  const PropertyKeys: seq<string> := ["type", "category", "name", "alias", "remark", "model", "time", "noted"]

  /** The pairs `add_properties` writes: each attribute rendered with `str()`. */
  function Properties(a: Attributes): (r: seq<(string, string)>)
    ensures Firsts(r) == PropertyKeys
  {
    [("type", a.objType), ("category", a.category), ("name", a.name), ("alias", a.alias),
     ("remark", a.remark), ("model", a.model), ("time", a.time), ("noted", a.noted)]
  }

  /** `add_properties`: the eight string attributes of the entry, in order; on a
      fresh element nothing else, and no `id`. */
  function AddProperties(el: Element, a: Attributes): (r: Element)
    ensures r.obj == el.obj
    ensures el.attributes.Valid() ==> r.attributes.Valid()
    ensures r.attributes.Get("type") == Some(a.objType) && r.attributes.Get("category") == Some(a.category)
    ensures r.attributes.Get("name") == Some(a.name) && r.attributes.Get("alias") == Some(a.alias)
    ensures r.attributes.Get("remark") == Some(a.remark) && r.attributes.Get("model") == Some(a.model)
    ensures r.attributes.Get("time") == Some(a.time) && r.attributes.Get("noted") == Some(a.noted)
    ensures forall k :: k !in PropertyKeys ==> r.attributes.Get(k) == el.attributes.Get(k)
    ensures el.attributes.Valid() && el.attributes.keys == [] ==> r.attributes.keys == PropertyKeys
  {
    var ps := Properties(a);
    assert Distinct(PropertyKeys);
    PutAllGet(el.attributes, ps);
    assert ps[0].0 == "type" && ps[1].0 == "category" && ps[2].0 == "name" && ps[3].0 == "alias";
    assert ps[4].0 == "remark" && ps[5].0 == "model" && ps[6].0 == "time" && ps[7].0 == "noted";
    PutAllFreshKeys(el.attributes, ps);
    Element(el.obj, PutAll(el.attributes, ps))
  }

  // ---------------------------------------------------------------------------
  // IFCETree: one element per instance
  // ---------------------------------------------------------------------------

  /** The three drafts of `IFCETree.execute`: with `add_properties` and a temporary
      `id` (2023-05-02, second draft), bare elements with a temporary `id`
      (2023-05-02, first draft), bare elements that keep `id` (2023-05-04). */
  datatype Variant = WithProperties | TemporaryId | KeptId

  /** The `id` attribute value the drafts set. */
  const CustomId: string := "my_custom_id"

  /** The element `establish` creates for an entry. */
  function Fresh(e: Entry, inst: string, withProps: bool): Element
    requires withProps ==> e.attributes.Some?
  {
    if withProps then AddProperties(Element(inst, Empty()), e.attributes.value) else Element(inst, Empty())
  }

  /** Every entry carries attributes. */
  ghost predicate Attributed(info: Info)
  {
    forall k :: info.Get(k).Some? && info.Get(k).value.Some? ==> info.Get(k).value.value.attributes.Some?
  }

  function EstablishKeys(info: Info, keys: seq<string>, withProps: bool, els: Dict<Element>): (r: Result<Dict<Element>>)
    requires forall k :: k in keys ==> info.Get(k).Some?
    ensures els.Valid() && r.Ok? ==> r.value.Valid()
    ensures r.Err? ==> r.error.KeyError? || r.error.TypeError?
    decreases |keys|
  {
    if |keys| == 0 then Ok(els)
    else
      var n := |keys| - 1;
      var k := keys[n];
      assert keys == keys[..n] + [k];
      match EstablishKeys(info, keys[..n], withProps, els)
      case Err(err) => Err(err)
      case Ok(before) =>
        match info.Get(k).value
        case None => Err(TypeError)
        case Some(e) =>
          if e.inst.None? then Err(KeyError("ifc_inst"))
          else if withProps && e.attributes.None? then Err(KeyError("attributes"))
          else Ok(before.Put(e.inst.value, Fresh(e, e.inst.value, withProps)))
  }

  /** On built entries the loop succeeds and creates exactly one element per key. */
  lemma {:induction false} EstablishKeysBuilt(info: Info, keys: seq<string>, withProps: bool, els: Dict<Element>)
    requires forall k :: k in keys ==> info.Get(k).Some?
    ensures Built(info) && (withProps ==> Attributed(info)) ==> EstablishKeys(info, keys, withProps, els).Ok?
    ensures Built(info) && (withProps ==> Attributed(info)) ==>
              forall k :: EstablishKeys(info, keys, withProps, els).value.Get(k) ==
                (if k in keys then Some(Fresh(info.Get(k).value.value, k, withProps)) else els.Get(k))
    decreases |keys|
  {
    if |keys| > 0 && Built(info) && (withProps ==> Attributed(info)) {
      var n := |keys| - 1;
      var k := keys[n];
      assert keys == keys[..n] + [k];
      EstablishKeysBuilt(info, keys[..n], withProps, els);
      assert info.Get(k).value.value.inst == Some(k);
    }
  }

  /** `establish`: one element per entry, keyed by the entry's instance. */
  function Establish(info: Info, withProps: bool): (r: Result<Dict<Element>>)
    requires info.Valid()
    ensures r.Ok? ==> r.value.Valid()
    ensures Built(info) && (withProps ==> Attributed(info)) ==> r.Ok?
    ensures Built(info) && (withProps ==> Attributed(info)) ==>
              forall k :: r.value.Get(k) == (if info.Get(k).Some? then Some(Fresh(info.Get(k).value.value, k, withProps)) else None)
    ensures r.Err? ==> r.error.KeyError? || r.error.TypeError?
  {
    assert forall k :: info.Get(k).Some? <==> k in info.keys;
    EstablishKeysBuilt(info, info.keys, withProps, Empty());
    EstablishKeys(info, info.keys, withProps, Empty())
  }

  /** One attribute operation applied to every element. */
  datatype Op = SetOp(key: string, value: string) | RemoveOp(key: string)

  function Apply(el: Element, op: Op): Element
  {
    match op
    case SetOp(k, v) => el.SetAttr(k, v)
    case RemoveOp(k) => el.RemoveAttr(k)
  }

  /** `for obj, elem in elements.items(): elem.<op>`. */
  function ApplyKeys(els: Dict<Element>, keys: seq<string>, op: Op): (r: Dict<Element>)
    requires Distinct(keys)
    ensures r.keys == els.keys
    ensures forall k :: r.Get(k) == (if k in keys && els.Get(k).Some? then Some(Apply(els.Get(k).value, op)) else els.Get(k))
    ensures els.Valid() ==> r.Valid()
    decreases |keys|
  {
    if |keys| == 0 then els
    else
      var n := |keys| - 1;
      var k := keys[n];
      assert keys == keys[..n] + [k];
      assert Distinct(keys[..n]) && k !in keys[..n] by {
        forall i, j | 0 <= i < j < n ensures keys[..n][i] != keys[..n][j] {
          assert keys[i] != keys[j];
        }
        forall i | 0 <= i < n ensures keys[..n][i] != k {
          assert keys[i] != keys[n];
        }
      }
      var before := ApplyKeys(els, keys[..n], op);
      match before.Get(k)
      case None => before
      case Some(el) => before.Put(k, Apply(el, op))
  }

  function ApplyAll(els: Dict<Element>, op: Op): (r: Dict<Element>)
    requires els.Valid()
    ensures r.Valid() && r.keys == els.keys
    ensures forall k :: r.Get(k) == (if els.Get(k).Some? then Some(Apply(els.Get(k).value, op)) else None)
  {
    assert Distinct(els.keys);
    assert forall k :: els.Get(k).Some? <==> k in els.keys;
    ApplyKeys(els, els.keys, op)
  }

  /** A fresh element has valid attributes and no `id`. */
  lemma FreshHasNoId(e: Entry, inst: string, withProps: bool)
    requires withProps ==> e.attributes.Some?
    ensures Fresh(e, inst, withProps).obj == inst
    ensures Fresh(e, inst, withProps).attributes.Valid()
    ensures Fresh(e, inst, withProps).attributes.Get("id").None?
  {
    assert "id" !in PropertyKeys;
  }

  /** Tagging every element with `id` and removing it again restores every element
      that had no `id`. */
  lemma TagThenClean(els: Dict<Element>)
    requires els.Valid()
    requires forall k :: els.Get(k).Some? ==> els.Get(k).value.attributes.Valid() && els.Get(k).value.attributes.Get("id").None?
    ensures forall k :: ApplyAll(ApplyAll(els, SetOp("id", CustomId)), RemoveOp("id")).Get(k) == els.Get(k)
  {
    forall k | els.Get(k).Some?
      ensures ApplyAll(ApplyAll(els, SetOp("id", CustomId)), RemoveOp("id")).Get(k) == els.Get(k)
    {
      SetThenRemove(els.Get(k).value, "id", CustomId);
    }
  }

  /** `IFCETree.execute`: nothing without an executed builder; otherwise establish,
      set `id` on every element, and remove it again unless the draft keeps it. */
  function ETreeExecute(builderExecuted: bool, info: Info, v: Variant): (r: Result<Dict<Element>>)
    requires info.Valid()
    ensures !builderExecuted ==> r == Ok(Empty())
    ensures r.Ok? ==> r.value.Valid()
    ensures r.Err? ==> r.error.KeyError? || r.error.TypeError?
  {
    if !builderExecuted then Ok(Empty())
    else
      match Establish(info, v == WithProperties)
      case Err(e) => Err(e)
      case Ok(els) =>
        var tagged := ApplyAll(els, SetOp("id", CustomId));
        if v == KeptId then Ok(tagged) else Ok(ApplyAll(tagged, RemoveOp("id")))
  }

  /** On built entries the tree holds one element per key: with the eight
      properties and no `id` (temporary `id` removed), bare, or bare with the kept
      `id`, according to the draft. */
  lemma ETreeExecuteBuilt(info: Info, v: Variant)
    requires info.Valid() && Built(info) && (v == WithProperties ==> Attributed(info))
    ensures ETreeExecute(true, info, v).Ok?
    ensures forall k :: ETreeExecute(true, info, v).value.Get(k).Some? <==> info.Get(k).Some?
    ensures v == WithProperties ==> forall k :: info.Get(k).Some? ==>
              ETreeExecute(true, info, v).value.Get(k) == Some(AddProperties(Element(k, Empty()), info.Get(k).value.value.attributes.value))
    ensures v == TemporaryId ==> forall k :: info.Get(k).Some? ==>
              ETreeExecute(true, info, v).value.Get(k) == Some(Element(k, Empty()))
    ensures v == KeptId ==> forall k :: info.Get(k).Some? ==>
              ETreeExecute(true, info, v).value.Get(k) == Some(Element(k, Empty<string>().Put("id", CustomId)))
  {
    var withProps := v == WithProperties;
    var els := Establish(info, withProps).value;
    forall k | els.Get(k).Some?
      ensures els.Get(k).value.attributes.Valid() && els.Get(k).value.attributes.Get("id").None?
    {
      FreshHasNoId(info.Get(k).value.value, k, withProps);
    }
    if v != KeptId {
      TagThenClean(els);
    }
  }

  /** The whole chain parser → builder → element tree of the 2023-05-02 and
      2023-05-04 drafts. The parser's table stays `{}` until it executes; the
      builder flags itself executed even when it refuses to build, so the tree
      then runs on the empty table. */
  function Pipeline(parserExecuted: bool, parsed: Info, v: Variant): (r: Result<Dict<Element>>)
    requires parsed.Valid()
    ensures !parserExecuted ==> r.Ok? && r.value.keys == []
    ensures parserExecuted && !Complete(parsed) ==> r == Err(TypeError)
  {
    var info := if parserExecuted then parsed else Empty();
    var (executed, out) := BuilderExecute(parserExecuted, info);
    match out
    case Err(e) => Err(e)
    case Ok(o) => ETreeExecute(executed, o.info, v)
  }

  /** Building keeps the keys and the parsed attributes of every entry. */
  lemma BuildKeepsEntries(parsed: Info)
    requires parsed.Valid() && Complete(parsed)
    ensures Build(parsed).Ok?
    ensures forall k :: Build(parsed).value.Get(k).Some? <==> parsed.Get(k).Some?
    ensures forall k :: parsed.Get(k).Some? ==>
              Build(parsed).value.Get(k).value.value.attributes == parsed.Get(k).value.value.attributes
  {
    assert Build(parsed).value.keys == parsed.keys;
  }

  /** With an executed parser the chain reduces to the tree over the built table. */
  lemma PipelineUnfolds(parsed: Info, v: Variant)
    requires parsed.Valid() && Complete(parsed) && Resolves(parsed)
    ensures Build(parsed).Ok? && Build(parsed).value.Valid() && Built(Build(parsed).value)
    ensures Pipeline(true, parsed, v) == ETreeExecute(true, Build(parsed).value, v)
  {
  }

  /** An executed parser with a complete, resolving table yields one element per
      parsed key. */
  lemma PipelineMirrors(parsed: Info, v: Variant)
    requires parsed.Valid() && Complete(parsed) && Resolves(parsed)
    requires v == WithProperties ==> Attributed(parsed)
    ensures Pipeline(true, parsed, v).Ok?
    ensures forall k :: Pipeline(true, parsed, v).value.Get(k).Some? <==> parsed.Get(k).Some?
  {
    PipelineUnfolds(parsed, v);
    BuildKeepsEntries(parsed);
    var b := Build(parsed).value;
    assert v == WithProperties ==> Attributed(b);
    ETreeExecuteBuilt(b, v);
  }

  /** With properties, each element carries its entry's alias (the object key). */
  lemma PipelineKeepsAliases(parsed: Info)
    requires parsed.Valid() && Complete(parsed) && Resolves(parsed) && Attributed(parsed)
    ensures Pipeline(true, parsed, WithProperties).Ok?
    ensures AliasesKept(Pipeline(true, parsed, WithProperties).value, parsed)
  {
    PipelineUnfolds(parsed, WithProperties);
    BuildKeepsEntries(parsed);
    var b := Build(parsed).value;
    assert Attributed(b);
    ETreeExecuteBuilt(b, WithProperties);
    var r := Pipeline(true, parsed, WithProperties).value;
    forall k | parsed.Get(k).Some? && parsed.Get(k).value.Some? && parsed.Get(k).value.value.attributes.Some?
      ensures r.Get(k).Some? && r.Get(k).value.attributes.Get("alias") == Some(parsed.Get(k).value.value.attributes.value.alias)
    {
      var el := AddProperties(Element(k, Empty()), b.Get(k).value.value.attributes.value);
      assert r.Get(k) == Some(el);
    }
  }

  /** Every parsed entry's element carries the entry's alias. */
  ghost predicate AliasesKept(els: Dict<Element>, parsed: Info)
  {
    forall k :: parsed.Get(k).Some? && parsed.Get(k).value.Some? && parsed.Get(k).value.value.attributes.Some? ==>
      els.Get(k).Some? && els.Get(k).value.attributes.Get("alias") == Some(parsed.Get(k).value.value.attributes.value.alias)
  }

  /** The parsed table is complete exactly when the root collection has a
      same-named object; otherwise every build raises `TypeError` at the root. */
  lemma ReadIfcComplete(s: Scene.Snapshot, cols: seq<string>, objs: seq<string>)
    requires forall o :: o in objs ==> o in s.objs
    ensures Complete(ReadIfc(s, cols, objs)) <==> s.root in objs
    ensures s.root !in objs ==> Build(ReadIfc(s, cols, objs)) == Err(TypeError)
  {
    var info := ReadIfc(s, cols, objs);
    if s.root !in objs {
      assert info.Get(s.root) == Some(None);
    }
  }

  // ---------------------------------------------------------------------------
  // IFCBuilder with a separate instance table (2023-05-02, builder draft) and
  // with partner objects (2023-04-28)
  // ---------------------------------------------------------------------------

  function InstanceKeys(keys: seq<string>, acc: Dict<string>): (r: Dict<string>)
    ensures acc.Valid() ==> r.Valid()
    ensures forall k :: r.Get(k) == (if k in keys then Some(k) else acc.Get(k))
    decreases |keys|
  {
    if |keys| == 0 then acc
    else
      var n := |keys| - 1;
      assert keys == keys[..n] + [keys[n]];
      InstanceKeys(keys[..n], acc).Put(keys[n], keys[n])
  }

  /** `build` of the builder draft: one instance per parsed key, including the
      root's `None` entry; an empty table builds nothing. */
  function BuildInstances(elements: Info): (r: Dict<string>)
    requires elements.Valid()
    ensures r.Valid()
    ensures forall k :: r.Get(k) == (if elements.Get(k).Some? then Some(k) else None)
  {
    assert forall k :: elements.Get(k).Some? <==> k in elements.keys;
    if |elements.keys| == 0 then Empty() else InstanceKeys(elements.keys, Empty())
  }

  /** The parent an entry names for the builder draft, failing like the source:
      `KeyError` for a missing key, `TypeError` for the root's `None`. */
  function EntryParent(elements: Info, k: string): Result<Option<string>>
  {
    match elements.Get(k)
    case None => Err(KeyError(k))
    case Some(None) => Err(TypeError)
    case Some(Some(e)) => Ok(if Truthy(e.parent) then e.parent else None)
  }

  function LinkInstanceKeys(elements: Info, instances: Dict<string>, keys: seq<string>, links: Dict<string>): (r: Result<Dict<string>>)
    requires forall k :: k in keys ==> instances.Get(k).Some?
    ensures r.Ok? <==> forall k :: (k in keys ==>
                          EntryParent(elements, k).Ok? &&
                          (EntryParent(elements, k).value.Some? ==> instances.Get(EntryParent(elements, k).value.value).Some?))
    ensures IdentityTable(instances) && r.Ok? ==> forall i :: (r.value.Get(i) ==
              (if i in keys && EntryParent(elements, i).Ok? && EntryParent(elements, i).value.Some? then EntryParent(elements, i).value else links.Get(i)))
    ensures links.Valid() && r.Ok? ==> r.value.Valid()
    ensures r.Err? ==> r.error.KeyError? || r.error.TypeError?
    decreases |keys|
  {
    if |keys| == 0 then Ok(links)
    else
      var n := |keys| - 1;
      var k := keys[n];
      assert keys == keys[..n] + [k];
      match LinkInstanceKeys(elements, instances, keys[..n], links)
      case Err(e) => Err(e)
      case Ok(before) =>
        match EntryParent(elements, k)
        case Err(e) => Err(e)
        case Ok(None) => Ok(before)
        case Ok(Some(p)) =>
          match instances.Get(p)
          case None => Err(KeyError(p))
          case Some(pi) => Ok(before.Put(instances.Get(k).value, pi))
  }

  /** Every instance is named after its key, as `build` creates them. */
  ghost predicate IdentityTable(instances: Dict<string>)
  {
    forall k :: instances.Get(k).Some? ==> instances.Get(k) == Some(k)
  }

  /** `assemble` of the builder draft: each instance is parented to the instance of
      its entry's truthy `ifc_parent`. It raises `TypeError` on the root's `None`
      entry and `KeyError` for a parent without an instance; on success the links
      mirror the entries' parents. */
  function AssembleInstances(elements: Info, instances: Dict<string>): (r: Result<Dict<string>>)
    requires instances.Valid()
    ensures r.Ok? <==> forall k :: (instances.Get(k).Some? ==>
                          EntryParent(elements, k).Ok? &&
                          (EntryParent(elements, k).value.Some? ==> instances.Get(EntryParent(elements, k).value.value).Some?))
    ensures IdentityTable(instances) && r.Ok? ==> forall i :: (r.value.Get(i) ==
              (if instances.Get(i).Some? && EntryParent(elements, i).value.Some? then EntryParent(elements, i).value else None))
    ensures r.Ok? ==> r.value.Valid()
    ensures r.Err? ==> r.error.KeyError? || r.error.TypeError?
  {
    assert forall k :: instances.Get(k).Some? <==> k in instances.keys;
    LinkInstanceKeys(elements, instances, instances.keys, Empty())
  }

  /** Instances, their parent links and their transforms. */
  datatype InstanceOutcome = InstanceOutcome(instances: Dict<string>, links: Dict<string>, transforms: Dict<Transform>)

  function PlaceInstanceKeys(elements: Info, instances: Dict<string>, keys: seq<string>, placed: Dict<Transform>): (r: Result<Dict<Transform>>)
    requires forall k :: k in keys ==> instances.Get(k).Some?
    ensures r.Ok? <==> forall k :: k in keys ==> elements.Get(k).Some? && elements.Get(k).value.Some?
    ensures IdentityTable(instances) && r.Ok? ==> forall i :: (r.value.Get(i) ==
              (if i in keys then Some(elements.Get(i).value.value.transform) else placed.Get(i)))
    ensures placed.Valid() && r.Ok? ==> r.value.Valid()
    ensures r.Err? ==> r.error.KeyError? || r.error.TypeError?
    decreases |keys|
  {
    if |keys| == 0 then Ok(placed)
    else
      var n := |keys| - 1;
      var k := keys[n];
      assert keys == keys[..n] + [k];
      match PlaceInstanceKeys(elements, instances, keys[..n], placed)
      case Err(e) => Err(e)
      case Ok(before) =>
        match elements.Get(k)
        case None => Err(KeyError(k))
        case Some(None) => Err(TypeError)
        case Some(Some(e)) => Ok(before.Put(instances.Get(k).value, e.transform))
  }

  /** `execute` of the builder draft: flags itself executed, then builds, links and
      places the instances when the parser has run. The root's `None` entry makes
      the linking step raise `TypeError` unless the root has a same-named object. */
  function ExecuteInstances(parserExecuted: bool, elements: Info): (r: (bool, Result<InstanceOutcome>))
    requires elements.Valid()
    ensures r.0
    ensures !parserExecuted ==> r.1 == Ok(InstanceOutcome(Empty(), Empty(), Empty()))
    ensures parserExecuted ==> (r.1.Ok? <==> Complete(elements) && forall k :: ParentOf(elements, k).Some? ==> elements.Get(ParentOf(elements, k).value).Some?)
    ensures parserExecuted && r.1.Ok? ==> forall k :: r.1.value.links.Get(k) == ParentOf(elements, k)
    ensures parserExecuted && r.1.Ok? ==> forall k :: elements.Get(k).Some? ==> r.1.value.transforms.Get(k) == Some(elements.Get(k).value.value.transform)
  {
    if !parserExecuted then (true, Ok(InstanceOutcome(Empty(), Empty(), Empty())))
    else
      var instances := BuildInstances(elements);
      AssembleBuiltOk(elements);
      match AssembleInstances(elements, instances)
      case Err(e) => (true, Err(e))
      case Ok(links) =>
        AssembleBuiltLinks(elements, links);
        PlaceBuilt(elements);
        match PlaceInstanceKeys(elements, instances, instances.keys, Empty())
        case Err(e) => (true, Err(e))
        case Ok(placed) => (true, Ok(InstanceOutcome(instances, links, placed)))
  }

  /** Linking the freshly built instances succeeds exactly when every entry is set
      and every truthy parent names a key that holds an entry. */
  lemma AssembleBuiltOk(elements: Info)
    requires elements.Valid()
    ensures AssembleInstances(elements, BuildInstances(elements)).Ok?
      <==> Complete(elements) && forall k :: ParentOf(elements, k).Some? ==> elements.Get(ParentOf(elements, k).value).Some?
  {
    BuiltLinkable(elements, BuildInstances(elements));
  }

  /** For instances built one per key, every instance can be linked exactly when
      every entry is set and every truthy parent names a key that holds an entry. */
  lemma BuiltLinkable(elements: Info, instances: Dict<string>)
    requires forall k :: instances.Get(k) == (if elements.Get(k).Some? then Some(k) else None)
    ensures (forall k :: (instances.Get(k).Some? ==>
               EntryParent(elements, k).Ok? &&
               (EntryParent(elements, k).value.Some? ==> instances.Get(EntryParent(elements, k).value.value).Some?)))
      <==> Complete(elements) && forall k :: ParentOf(elements, k).Some? ==> elements.Get(ParentOf(elements, k).value).Some?
  {
    if forall k :: (instances.Get(k).Some? ==>
         EntryParent(elements, k).Ok? &&
         (EntryParent(elements, k).value.Some? ==> instances.Get(EntryParent(elements, k).value.value).Some?)) {
      forall k | elements.Get(k).Some? ensures elements.Get(k).value.Some? {
        assert instances.Get(k).Some?;
        assert EntryParent(elements, k).Ok?;
      }
      forall k | ParentOf(elements, k).Some? ensures elements.Get(ParentOf(elements, k).value).Some? {
        assert instances.Get(k).Some?;
        assert EntryParent(elements, k) == Ok(ParentOf(elements, k));
      }
    }
    if Complete(elements) && forall k :: ParentOf(elements, k).Some? ==> elements.Get(ParentOf(elements, k).value).Some? {
      forall k | instances.Get(k).Some?
        ensures EntryParent(elements, k).Ok? &&
          (EntryParent(elements, k).value.Some? ==> instances.Get(EntryParent(elements, k).value.value).Some?)
      {
        assert EntryParent(elements, k) == Ok(ParentOf(elements, k));
      }
    }
  }

  /** Once linking the freshly built instances succeeds, the links are the entries'
      parents. */
  lemma AssembleBuiltLinks(elements: Info, links: Dict<string>)
    requires elements.Valid() && AssembleInstances(elements, BuildInstances(elements)) == Ok(links)
    ensures forall k :: links.Get(k) == ParentOf(elements, k)
  {
    var instances := BuildInstances(elements);
    assert IdentityTable(instances);
    LinksAreParents(elements, instances, links);
  }

  /** Links that follow each built instance's entry are the entries' parents. */
  lemma LinksAreParents(elements: Info, instances: Dict<string>, links: Dict<string>)
    requires forall k :: instances.Get(k) == (if elements.Get(k).Some? then Some(k) else None)
    requires forall k :: instances.Get(k).Some? ==> EntryParent(elements, k).Ok?
    requires forall i :: (links.Get(i) ==
      (if instances.Get(i).Some? && EntryParent(elements, i).value.Some? then EntryParent(elements, i).value else None))
    ensures forall k :: links.Get(k) == ParentOf(elements, k)
  {
    forall k ensures links.Get(k) == ParentOf(elements, k) {
      if instances.Get(k).Some? {
        assert EntryParent(elements, k) == Ok(ParentOf(elements, k));
      }
    }
  }

  /** With every entry set, placing the built instances succeeds and records each
      entry's transform. */
  lemma PlaceBuilt(elements: Info)
    requires elements.Valid() && Complete(elements)
    ensures var instances := BuildInstances(elements);
      var r := PlaceInstanceKeys(elements, instances, instances.keys, Empty());
      && r.Ok?
      && forall k :: elements.Get(k).Some? ==> r.value.Get(k) == Some(elements.Get(k).value.value.transform)
  {
    var instances := BuildInstances(elements);
    assert IdentityTable(instances);
    assert forall k :: k in instances.keys <==> instances.Get(k).Some?;
  }

  /** The partners table of the 2023-04-28 builder: one partner per key of the
      parent map that is an object; an empty map builds nothing. */
  function BuildPartners(inherit: Dict<Option<string>>, objects: seq<string>): (r: Dict<string>)
    requires inherit.Valid()
    ensures r.Valid()
    ensures forall k :: r.Get(k) == (if inherit.Get(k).Some? && k in objects then Some(k) else None)
  {
    assert forall k :: inherit.Get(k).Some? <==> k in inherit.keys;
    PartnerKeys(inherit.keys, objects, Empty())
  }

  function PartnerKeys(keys: seq<string>, objects: seq<string>, acc: Dict<string>): (r: Dict<string>)
    ensures acc.Valid() ==> r.Valid()
    ensures forall k :: r.Get(k) == (if k in keys && k in objects then Some(k) else acc.Get(k))
    decreases |keys|
  {
    if |keys| == 0 then acc
    else
      var n := |keys| - 1;
      var k := keys[n];
      assert keys == keys[..n] + [k];
      var before := PartnerKeys(keys[..n], objects, acc);
      if k in objects then before.Put(k, k) else before
  }

  /** `inherit.get(k)` flattened to the truthy parent, if any. */
  function InheritedParent(inherit: Dict<Option<string>>, k: string): Option<string>
  {
    match inherit.Get(k)
    case Some(Some(p)) => if p != "" then Some(p) else None
    case _ => None
  }

  function LinkPartnerKeys(inherit: Dict<Option<string>>, partners: Dict<string>, keys: seq<string>, links: Dict<string>): (r: Result<Dict<string>>)
    requires forall k :: k in keys ==> partners.Get(k).Some?
    ensures r.Ok? <==> forall k :: k in keys && InheritedParent(inherit, k).Some? ==> partners.Get(InheritedParent(inherit, k).value).Some?
    ensures IdentityTable(partners) && r.Ok? ==> forall i :: (r.value.Get(i) ==
              (if i in keys && InheritedParent(inherit, i).Some? then InheritedParent(inherit, i) else links.Get(i)))
    ensures links.Valid() && r.Ok? ==> r.value.Valid()
    ensures r.Err? ==> r.error.KeyError?
    decreases |keys|
  {
    if |keys| == 0 then Ok(links)
    else
      var n := |keys| - 1;
      var k := keys[n];
      assert keys == keys[..n] + [k];
      match LinkPartnerKeys(inherit, partners, keys[..n], links)
      case Err(e) => Err(e)
      case Ok(before) =>
        match InheritedParent(inherit, k)
        case None => Ok(before)
        case Some(p) =>
          match partners.Get(p)
          case None => Err(KeyError(p))
          case Some(pp) => Ok(before.Put(partners.Get(k).value, pp))
  }

  /** `assemble` of the 2023-04-28 builder: each partner is parented to the partner
      of its recorded parent; a parent that is not an object has no partner and
      raises `KeyError`. */
  function AssemblePartners(inherit: Dict<Option<string>>, partners: Dict<string>): (r: Result<Dict<string>>)
    requires partners.Valid()
    ensures r.Ok? <==> forall k :: partners.Get(k).Some? && InheritedParent(inherit, k).Some? ==>
                          partners.Get(InheritedParent(inherit, k).value).Some?
    ensures IdentityTable(partners) && r.Ok? ==> forall i :: (r.value.Get(i) ==
              (if partners.Get(i).Some? then InheritedParent(inherit, i) else None))
    ensures r.Ok? ==> r.value.Valid()
    ensures r.Err? ==> r.error.KeyError?
  {
    assert forall k :: partners.Get(k).Some? <==> k in partners.keys;
    LinkPartnerKeys(inherit, partners, partners.keys, Empty())
  }

  /** `execute` of the 2023-04-28 builder on the parser's parent map. */
  function ExecutePartners(parserExecuted: bool, inherit: Dict<Option<string>>, objects: seq<string>): (r: (bool, Result<(Dict<string>, Dict<string>)>))
    requires inherit.Valid()
    ensures r.0
    ensures !parserExecuted ==> r.1 == Ok((Empty(), Empty()))
    ensures parserExecuted ==> (r.1.Ok? <==> forall k :: inherit.Get(k).Some? && k in objects && InheritedParent(inherit, k).Some? ==>
                                  var p := InheritedParent(inherit, k).value; inherit.Get(p).Some? && p in objects)
    ensures parserExecuted && r.1.Ok? ==> forall k :: r.1.value.1.Get(k) == (if inherit.Get(k).Some? && k in objects then InheritedParent(inherit, k) else None)
  {
    if !parserExecuted then (true, Ok((Empty(), Empty())))
    else
      var partners := BuildPartners(inherit, objects);
      assert IdentityTable(partners);
      match AssemblePartners(inherit, partners)
      case Err(e) => (true, Err(e))
      case Ok(links) => (true, Ok((partners, links)))
  }
}
