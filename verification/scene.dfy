/** The injected, read-only snapshot of the Blender scene that replaces `bpy`: the
    ordered collection names under the IFC root, each collection's child collections
    and objects, and each object's kind and world transform. */
module Scene {
  import opened Common

  /** One collection: its direct child collections, its direct objects, and
      `all_objects` (its objects and those of every nested collection), each in
      Blender's order. */
  datatype Collection = Collection(children: seq<string>, objects: seq<string>, allObjects: seq<string>)

  /** One object: whether it is an EMPTY, and its world transform. */
  datatype SceneObject = SceneObject(isEmpty: bool, transform: Transform)

  datatype Snapshot = Snapshot(
    root: string,                  // the IFC root collection, e.g. "IfcProject/"
    descendants: seq<string>,      // `root.children_recursive`, in Blender's order
    colls: map<string, Collection>,
    objs: map<string, SceneObject>)
  {
    /** `[root.name] + [c.name for c in root.children_recursive]`. */
    function CollectionNames(): seq<string>
    {
      [root] + descendants
    }

    /** `bpy.data.collections[c].children.keys()`. */
    function Children(c: string): seq<string>
    {
      if c in colls then colls[c].children else []
    }

    /** `bpy.data.collections[c].objects.keys()`. */
    function Objects(c: string): seq<string>
    {
      if c in colls then colls[c].objects else []
    }

    /** `bpy.data.collections[c].all_objects`. */
    function AllObjects(c: string): seq<string>
    {
      if c in colls then colls[c].allObjects else []
    }

    /** What Blender guarantees about the names it hands out: every listed
        collection and every object under the root resolves. */
    ghost predicate Valid()
    {
      && (forall c :: c in CollectionNames() ==> c in colls)
      && (forall o :: o in AllObjects(root) ==> o in objs)
    }
  }

  /** The transform of the EMPTY named exactly like collection `c`, found by scanning
      `c`'s objects the way `create_xml_building` does (a later match overwrites an
      earlier one); `None` when the collection has no such proxy. */
  function ProxyTransform(s: Snapshot, c: string): (r: Option<Transform>)
    ensures r.Some? <==> c in s.Objects(c) && c in s.objs && s.objs[c].isEmpty
    ensures r.Some? ==> r.value == s.objs[c].transform
  {
    ScanProxy(s, c, s.Objects(c))
  }

  function ScanProxy(s: Snapshot, c: string, members: seq<string>): (r: Option<Transform>)
    ensures r.Some? <==> c in members && c in s.objs && s.objs[c].isEmpty
    ensures r.Some? ==> r.value == s.objs[c].transform
    decreases |members|
  {
    if |members| == 0 then None
    else
      var n := |members| - 1;
      var o := members[n];
      assert members == members[..n] + [o];
      if o in s.objs && s.objs[o].isEmpty && o == c then Some(s.objs[o].transform)
      else ScanProxy(s, c, members[..n])
  }
}
