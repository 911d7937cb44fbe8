# blender-bim-to-xml, modelled in Dafny

blender-bim-to-xml turns an IFC model imported into Blender into an XML
document. It does this in a chain of dated drafts of one algorithm. First it
reads the IFC collection hierarchy (`IfcProject/…`, `IfcBuilding/…`,
`IfcBuildingStorey/15FL`, …). From that it infers a parent map: each object
maps to the collection that holds it. Then it mirrors the hierarchy with new
Blender instances and an attribute-holding element per instance. Last, it writes
a `Root`/`DataSource` XML skeleton. Under the skeleton it puts one `Object`
element per building and storey. Each `Object` has nine attributes and a
`Transform` child, and is addressed by its `root/…/name` path.

The model replaces `bpy` with an injected, immutable scene snapshot
(`Scene.Snapshot`). The snapshot holds the ordered collection names (root first,
then `children_recursive`). For each collection it holds its child collections,
its direct objects and `all_objects`. For each object it holds whether it is an
EMPTY and its world transform, as an opaque triple of string triples.

The rest is pure functions over sequences, insertion-ordered dicts
(`Dicts.Dict`) and an XML tree datatype (`XmlTree.Element`), plus one small
state record that `add_element` threads through: the document root and the
path → element cache. Python's exceptions become `Result.Err` values:
`KeyError(k)`, `IndexError` and `TypeError`. Each raises exactly where the
Python code raises.

An element reference in the XML tree becomes an *address*: the list of child
indices from `Root`. So the `elements` cache maps a path to an address.

The modules follow the program:

- `Common`: `Option`, `Result`, the error kinds, the transform triples, the nine-field attribute record.
- `Dicts`: Python's insertion-ordered `dict`.
- `Ident`: the `/` split and the prefix-gated `define_ifc_*` / `parse_ifc_collections` name scheme.
- `Scene`: the snapshot.
- `ParentMap`: the IFCParser drafts. This covers `init_ifc_collections`, `sorting`, `read_ifc`, `define_ifc_parent`, `define_bl_type`, `define_attributes`, and the older `define_parent` / `define_ifc_tree` / `define_inherit` and `define_type`.
- `Mirror`: the IFCBuilder and IFCETree drafts. This covers `build`, `assemble`, `set_transform`, the `is_executed` gating, `IFCETree.Element`, `add_properties`, `establish` and `execute`.
- `XmlTree`: the element datatype, `iter_with_path`, `get_elements_with_paths` and appending at an address.
- `XmlCreate`: the XML skeletons of every `factory` draft, `create_xml_node` / `create_xml_transform`, `parse_ifc_collections` and `add_element`.
- `XmlExecute`: `find_bl_object_by_ifc_info`, `create_xml_building`, `create_xml_building_storey` and `execute` of the path-indexed builder. It also covers the direct-construction drafts of 2023-04-26.

The key fact about `add_element` is this. It registers, and hands back as the
new element's `this_path`, the path of the **last `Object` in pre-order**. That
is the new element only when the parent lies on the rightmost `Object` chain
(`XmlTree.AppendIsLastIff`, `XmlCreate.AddElementOwnPathIff`). `execute` adds
the building under `Root` and then every storey under the building. That order
always keeps the parent on the rightmost chain. So `XmlExecute.Execute` is shown
to build exactly the document of the direct-construction draft
(`XmlExecute.DirectBuild`), with every building and storey path cached at its
own address.

## Model

| member | source | states |
|---|---|---|
| `Common.Str` | tests/ExportXML/UT_ExportXML_20230427_002_01.py:271-272 | `str()` of an optional attribute: the value itself, or the literal `"None"` when it is absent |
| `Dicts.Dict.Put` | tests/UT_3_IFCETree_20230504_001_01.py:136 | `d[k] = v`: `k` now maps to `v`, every other key keeps its lookup, an existing key keeps its place and a new key goes last, and no key is listed twice afterwards |
| `Dicts.Dict.Pop` | tests/UT_3_IFCETree_20230504_001_01.py:135 | `d.pop(k)`: raises `KeyError(k)` exactly when `k` is absent; otherwise `k` is gone, every other key keeps its lookup, and one key fewer is listed |
| `Dicts.Empty` | tests/UT_3_IFCETree_20230504_001_01.py:120-124 | `{}` has no key |
| `Dicts.KeysOf` | tests/UT_3_IFCETree_20230504_001_01.py:117-119 | a dict built from a name list holds exactly the listed names, each once |
| `Dicts.PutAll` | tests/UT_3_IFCETree_20230502_001_02_X.py:365-372 | setting pairs in turn leaves every key outside the pairs untouched and keeps the dict well formed |
| `Dicts.PutAllGet` | tests/UT_3_IFCETree_20230502_001_02_X.py:365-372 | with distinct keys, every key set in turn ends holding its own value |
| `Dicts.PutAllFreshKeys` | tests/ExportXML/UT_ExportXML_20230427_002_01.py:301-310 | distinct keys that are all new are listed after the old keys, in the order they were set |
| `Dicts.PutAllFromEmpty` | tests/ExportXML/UT_ExportXML_20230427_002_01.py:301-310 | starting from `{}`, distinct keys set in turn give exactly those keys in order, mapped as the pairs say |
| `Dicts.Values` | tests/ExportXML/UT_ExportXML_20230427_002_01.py:62-63 | `d.values()` lists one value per key, in key order, each the key's own value |
| `Dicts.Extensional` | tests/UT_3_IFCETree_20230502_001_01.py:321-329 | two dicts with the same key order and the same lookups are the same dict |
| `Ident.Split` | tests/ExportXML/UT_ExportXML_20230427_002_01.py:77-78 | `s.split("/")`: at least one segment, no segment contains `/`, joining them with `/` gives `s` back, and there are two or more segments exactly when `s` contains `/` |
| `Ident.SplitJoin` | tests/ExportXML/UT_ExportXML_20230427_002_01.py:77-78 | splitting the `/`-join of slash-free segments gives the segments back (the inverse of `Split`) |
| `Ident.Head` | tests/ExportXML/UT_ExportXML_20230427_002_01.py:77 | `split("/")[0]` has no `/` and is either the whole key or followed by `/` in it |
| `Ident.Second` | tests/ExportXML/UT_ExportXML_20230427_002_01.py:78 | `split("/")[1]` raises `IndexError` exactly when the key has no `/`; otherwise it is the slash-free segment after the first `/`, which ends the key or is followed by another `/` (the second segment, not the whole rest) |
| `Ident.DefineIfcType` | tests/UT_3_IFCETree_20230502_001_02_X.py:211-214 | a type exactly for keys starting `Ifc`: the text before the first `/` (or the whole key when it has none) |
| `Ident.NameUnder` | tests/UT_3_IFCETree_20230502_001_02_X.py:216-234 | under a one-segment prefix `P/`, a name exactly for keys starting with `P/`: the slash-free second segment |
| `Ident.SplitUnderPrefix` | tests/ExportXML/UT_ExportXML_20230427_002_01.py:74-88 | for a key under `P/`, `split("/")[0]` is `P` and `split("/")[1]` is the name the prefix function gives, so the two drafts' splits agree |
| `Ident.DefineIfcProject` | tests/UT_3_IFCETree_20230502_001_02_X.py:216-219 | a project name exactly for keys starting `IfcProject/`: the second segment |
| `Ident.DefineIfcSite` | tests/UT_3_IFCETree_20230502_001_02_X.py:221-224 | a site name exactly for keys starting `IfcSite/`: the second segment |
| `Ident.DefineIfcBuilding` | tests/UT_3_IFCETree_20230502_001_02_X.py:226-229 | a building name exactly for keys starting `IfcBuilding/`: the second segment |
| `Ident.DefineIfcStorey` | tests/UT_3_IFCETree_20230502_001_02_X.py:231-234 | a storey name exactly for keys starting `IfcBuildingStorey/`: the second segment |
| `Ident.StoreyIsNotBuilding` | tests/UT_1_IFCParser_20230502_001_01.py:76-84 | an `IfcBuildingStorey/x` key has a storey name and no building name: the two prefixes are disjoint |
| `Scene.ProxyTransform` | tests/ExportXML/UT_ExportXML_20230426_001_01.py:103-120 | the transform found for a collection exists exactly when the collection holds an EMPTY with its own name, and it is that EMPTY's transform |
| `ParentMap.DefineIfcParent` | tests/UT_3_IFCETree_20230502_001_02_X.py:202-209 | a found parent is one of the scanned collections and lists the object as a child collection or a member |
| `ParentMap.DefineIfcParentFirstMatch` | tests/UT_3_IFCETree_20230504_001_01.py:163-170 | the parent is the first collection in list order that claims the object, children checked before members; the result is `None` exactly when nothing claims it or the first claim is the object's own same-named collection by membership |
| `ParentMap.RemoveWhileIteratingKeepsOthers` | tests/UT_3_IFCETree_20230502_001_02_X.py:163-167 | removing ignored names while iterating never loses a name that is not ignored, and keeps the order of those names |
| `ParentMap.RemoveWhileIteratingFiltersWhenSpaced` | tests/UT_3_IFCETree_20230502_001_02_X.py:163-167 | when no two ignored names are adjacent, the loop removes exactly the ignored names |
| `ParentMap.InitIfcCollectionsSkipsAdjacent` | tests/UT_3_IFCETree_20230502_001_02_X.py:151-167 | with `Views` directly followed by `Types`, the loop removes `Views`, skips `Types`, and `Types` survives |
| `ParentMap.InitIfcCollectionsFiltered` | tests/UT_3_IFCETree_20230502_001_02_X.py:151-167 | the intended collection list holds exactly the scene's collections that are not ignored, and it is what the as-written list becomes once its leftover ignored names are dropped |
| `ParentMap.DefineBlType` | tests/UT_3_IFCETree_20230504_001_01.py:158-161 | the collection kind exactly when the name is a key of the collection table, else the object kind |
| `ParentMap.DefineAttributes` | tests/UT_3_IFCETree_20230502_001_02_X.py:258-270 | name = model = the text before the first `/`; alias is the whole key; category `"0"`; id and remark empty; noted `"created"`; time as given; type is the `Ifc` class or `"None"` |
| `ParentMap.ReadIfc` | tests/UT_3_IFCETree_20230504_001_01.py:144-156 | the table's first key is the root; its keys are the root and the objects; the root holds `None` unless it is itself an object; every object holds its own entry |
| `ParentMap.ReadIfcDiverting` | tests/UT_3_IFCETree_20230502_001_02_X.py:179-195 | objects whose parent is an ignored collection go to `ifc_types` and nowhere else; every other object gets its entry with attributes; the root is the first key |
| `ParentMap.PopAll` | tests/UT_3_IFCETree_20230504_001_01.py:139-141 | popping a list of names succeeds exactly when the names are distinct and all present (else `KeyError`), and removes exactly those names |
| `ParentMap.SortOne` | tests/UT_3_IFCETree_20230504_001_01.py:134-142 | one extra: succeeds exactly when all its objects are distinct and still present; then it pops the extra from the collections and each of its objects from the objects, and records both under the extra |
| `ParentMap.SortExtras` | tests/UT_3_IFCETree_20230504_001_01.py:132-142 | after all extras: no extra present before is still a collection key, the remaining objects are exactly those under no present extra, and each present extra's collection and objects are recorded |
| `ParentMap.Sorting` | tests/UT_3_IFCETree_20230504_001_01.py:115-142 | from the parser's initial tables: the collections left are the scene's non-ignored ones, and the objects left are the root's objects under no ignored collection |
| `ParentMap.SortExtrasMissingFails` | tests/UT_3_IFCETree_20230504_001_01.py:139-140 | an extra whose object is already gone raises `KeyError` |
| `ParentMap.SortExtrasOverlapFails` | tests/UT_3_IFCETree_20230504_001_01.py:139-140 | an object under two extras is popped twice and raises `KeyError` |
| `ParentMap.SortExtrasSeparateSucceeds` | tests/UT_3_IFCETree_20230504_001_01.py:132-142 | when each present extra's objects are distinct, present, and shared with no later extra, sorting succeeds |
| `ParentMap.ParseSorted` | tests/UT_3_IFCETree_20230504_001_01.py:219-226 | `sorting` then `read_ifc` fails exactly when sorting fails; otherwise the keys are exactly the root and the root's objects under no extra, each such object holds an entry, and the root holds `None` unless it is itself such an object |
| `ParentMap.FirstEnclosing` | tests/UT_2_IFCBuilder_20230428_001_01.py:132-138 | a proxy's collection is the first in list order whose children contain it, and `None` exactly when no collection does |
| `ParentMap.ScanMembers` | tests/UT_2_IFCBuilder_20230428_001_01.py:130-139 | scanning one proxied collection writes each member's parent and leaves every other key as it was |
| `ParentMap.LastWriter` | tests/UT_3_IFCETree_20230428_001_01.py:130-143 | the scan whose write a key keeps is the last one that writes it, and there is none exactly when no scan writes it |
| `ParentMap.ScanProxies` | tests/UT_1_IFCParser_20230428_001_01.py:22-37 | after all scans, each key holds the last scan's write, and an unwritten key keeps its prior value or stays absent |
| `ParentMap.DefineParent` | tests/UT_1_IFCParser_20230428_001_01.py:22-37 | the root is the first key and holds `None` unless some proxy writes a parent for it; the keys are exactly the root and what some scan writes; every written key holds the write of the last proxy in object order that writes it (so a key written once holds that write); every parent fits (the enclosing collection of a proxy, the proxied collection of any other member) |
| `ParentMap.DefineParentDomain` | tests/UT_2_IFCBuilder_20230428_001_01.py:124-139 | the keys of the tree are exactly the root and the keys some scan writes |
| `ParentMap.DefineParentValues` | tests/UT_3_IFCETree_20230428_001_01.py:128-143 | every non-`None` parent in the tree fits its key |
| `ParentMap.DefineParentUnique` | tests/UT_1_IFCParser_20230428_001_01.py:30-36 | a key written by a single scan holds that scan's write |
| `ParentMap.DefineType` | tests/UT_1_IFCParser_20230428_001_01.py:39-47 | an empty tree changes nothing; otherwise every tree key is typed `"collection"` exactly when it is a collection name, else `"object"`, and other keys keep their type |
| `ParentMap.TypeKeys` | tests/UT_2_IFCBuilder_20230428_001_01.py:141-148 | every listed key is typed `"collection"` or `"object"` by collection membership; unlisted keys keep their type |
| `Mirror.Build` | tests/UT_3_IFCETree_20230502_001_02_X.py:291-296 | succeeds exactly when every key holds an entry (a `None` entry raises `TypeError`); then every entry records the instance made for its own key, and the keys stay as they were |
| `Mirror.Assemble` | tests/UT_3_IFCETree_20230502_001_02_X.py:298-308 | on built entries it succeeds exactly when every truthy parent names a key with an entry; then each instance's parent link is its entry's truthy parent, and parentless ones are detached |
| `Mirror.SetTransform` | tests/UT_3_IFCETree_20230502_001_02_X.py:310-319 | on built entries every instance receives its own entry's transform unchanged, and nothing else is placed |
| `Mirror.BuilderExecute` | tests/UT_3_IFCETree_20230502_001_02_X.py:321-329 | the builder always marks itself executed; without an executed parser it builds nothing; otherwise it succeeds exactly when the table is complete and resolves, and the result is built, parented and placed as the entries say |
| `Mirror.Element.SetAttr` | tests/UT_3_IFCETree_20230502_001_02_X.py:345-347 | always writes the key; every other attribute is unchanged |
| `Mirror.Element.RemoveAttr` | tests/UT_3_IFCETree_20230502_001_02_X.py:349-352 | afterwards the key is absent (a no-op when it already was); every other attribute is unchanged |
| `Mirror.Element.UpdateAttr` | tests/UT_3_IFCETree_20230502_001_02_X.py:354-357 | a present key takes the new value in place; an absent key leaves the element unchanged; other attributes are unchanged |
| `Mirror.SetThenRemove` | tests/UT_3_IFCETree_20230502_001_01.py:295-303 | setting a key the element lacks and removing it again gives back the same element |
| `Mirror.RemoveIdempotent` | tests/UT_3_IFCETree_20230502_001_01.py:299-302 | removing a key twice is the same as removing it once |
| `Mirror.Properties` | tests/UT_3_IFCETree_20230502_001_02_X.py:365-372 | the properties are written under the eight keys type, category, name, alias, remark, model, time, noted, in that order |
| `Mirror.AddProperties` | tests/UT_3_IFCETree_20230502_001_02_X.py:362-372 | the eight properties take the entry's values and `id` is not among them; every other attribute is unchanged; on a fresh element the keys are exactly those eight, in order |
| `Mirror.Establish` | tests/UT_3_IFCETree_20230502_001_02_X.py:381-385 | on built entries, one fresh element per key, under its instance's name, with or without the properties |
| `Mirror.EstablishKeysBuilt` | tests/UT_3_IFCETree_20230504_001_01.py:308-311 | establishing a run of built keys makes one fresh element for each of them and touches nothing else |
| `Mirror.ApplyAll` | tests/UT_3_IFCETree_20230502_001_02_X.py:392-399 | one attribute operation applied to every element, the keys kept in order |
| `Mirror.FreshHasNoId` | tests/UT_3_IFCETree_20230502_001_02_X.py:381-385 | a freshly established element has no `id` |
| `Mirror.TagThenClean` | tests/UT_3_IFCETree_20230502_001_02_X.py:392-399 | setting `id` on every element and then removing it leaves every element exactly as it was, when none had an `id` |
| `Mirror.ETreeExecute` | tests/UT_3_IFCETree_20230502_001_02_X.py:387-401 | without an executed builder the tree stays `{}`; errors are only the `KeyError`/`TypeError` of a broken table |
| `Mirror.ETreeExecuteBuilt` | tests/UT_3_IFCETree_20230504_001_01.py:313-319 | on built entries the tree has an element exactly for each key: with the eight properties and no `id`, bare and empty (set then removed `id`), or holding only `id` = `my_custom_id`, according to the draft |
| `Mirror.Pipeline` | tests/UT_3_IFCETree_20230504_001_01.py:266-269 | an unexecuted parser still lets the tree run, on an empty table, because the builder flags itself executed first; an incomplete parsed table raises `TypeError` |
| `Mirror.BuildKeepsEntries` | tests/UT_3_IFCETree_20230502_001_02_X.py:291-296 | building keeps every key and every entry's attributes |
| `Mirror.PipelineUnfolds` | tests/UT_3_IFCETree_20230502_001_01.py:271-279 | with an executed parser the chain is the tree over the built table |
| `Mirror.PipelineMirrors` | tests/UT_3_IFCETree_20230502_001_01.py:317-331 | parser, builder and tree together give one element per parsed key |
| `Mirror.PipelineKeepsAliases` | tests/UT_3_IFCETree_20230502_001_02_X.py:368 | with properties, each element carries its own entry's alias |
| `Mirror.ReadIfcComplete` | tests/UT_3_IFCETree_20230504_001_01.py:145 | the parsed table is complete exactly when the root collection is also an object name; otherwise the build raises `TypeError` at the root's `None` |
| `Mirror.BuildInstances` | tests/UT_2_IFCBuilder_20230502_001_01.py:245-250 | exactly one instance per key of the table, named after its key, and none for an empty table |
| `Mirror.AssembleInstances` | tests/UT_2_IFCBuilder_20230502_001_01.py:252-258 | succeeds exactly when every instance's entry exists and every non-null parent has an instance; then each instance's parent link is its entry's parent |
| `Mirror.ExecuteInstances` | tests/UT_2_IFCBuilder_20230502_001_01.py:271-279 | always marked executed; nothing without an executed parser; otherwise succeeds exactly when every entry exists and every parent resolves, and links and transforms follow the entries |
| `Mirror.AssembleBuiltOk` | tests/UT_2_IFCBuilder_20230502_001_01.py:245-258 | assembling the instances just built succeeds exactly when every key holds an entry and every parent names a key with an entry |
| `Mirror.BuiltLinkable` | tests/UT_2_IFCBuilder_20230502_001_01.py:252-258 | for an instance table of this shape, the condition `assemble` needs is exactly a complete table whose parents resolve |
| `Mirror.AssembleBuiltLinks` | tests/UT_2_IFCBuilder_20230502_001_01.py:252-258 | after a successful assemble over the built instances, each link is exactly the entry's parent |
| `Mirror.LinksAreParents` | tests/UT_2_IFCBuilder_20230502_001_01.py:252-258 | links made through the instance table are the entries' own parents |
| `Mirror.PlaceBuilt` | tests/UT_2_IFCBuilder_20230502_001_01.py:260-269 | on a complete table, every instance receives its entry's transform unchanged |
| `Mirror.BuildPartners` | tests/UT_3_IFCETree_20230428_001_01.py:172-178 | a partner exactly for each inherit key that is an object name |
| `Mirror.AssemblePartners` | tests/UT_3_IFCETree_20230428_001_01.py:180-186 | succeeds exactly when each partner's parent, if any, has a partner (else `KeyError`); then each partner is linked to its inherited parent |
| `Mirror.ExecutePartners` | tests/UT_3_IFCETree_20230428_001_01.py:188-195 | always marked executed; nothing without an executed parser; otherwise succeeds exactly when every parent of a partnered key is itself partnered, and the links are the inherited parents |
| `XmlTree.SetAttribute` | tests/ExportXML/UT_ExportXML_20230425_002_01.py:29-31 | sets one attribute, overwriting a same-named value, and leaves the tag, the children and the other attributes unchanged |
| `XmlTree.AddChild` | tests/ExportXML/UT_ExportXML_20230427_002_01.py:301 | `SubElement`: the new element is the last child and the earlier children are unchanged |
| `XmlTree.ChildPath` | tests/ExportXML/UT_ExportXML_20230427_002_01.py:270-272 | a child's path is the parent path, `/`, and its `name` attribute, or the literal `None` when the attribute is absent |
| `XmlTree.AppendAt` | tests/ExportXML/UT_ExportXML_20230427_002_01.py:297-301 | appending under an address keeps the root's tag and attributes, and adds a root child only when the address is the root |
| `XmlTree.AppendAtNew` | tests/ExportXML/UT_ExportXML_20230427_002_01.py:297-301 | the appended element sits at the parent's address plus its old child count, with path = the parent's path + `/` + its name |
| `XmlTree.AppendAtKeeps` | tests/ExportXML/UT_ExportXML_20230427_002_01.py:301 | appending keeps every existing address valid, with the same tag, attributes and path; nodes off the parent's ancestor line are unchanged |
| `XmlTree.Walk` | tests/ExportXML/UT_ExportXML_20230427_002_01.py:265-274 | a matching element is yielded first, with its own path and address (pre-order) |
| `XmlTree.WalkSound` | tests/ExportXML/UT_ExportXML_20230427_002_01.py:265-274 | every yielded element matches the tag filter (`*` matches all) and sits at its yielded address, and its yielded path is the `/`-chain of names from the start |
| `XmlTree.WalkComplete` | tests/ExportXML/UT_ExportXML_20230427_003_01.py:264-273 | every matching element at any address is yielded, with its path |
| `XmlTree.GetElementsWithPaths` | tests/ExportXML/UT_ExportXML_20230427_002_01.py:276-281 | every result is sound from `Root` with path `root`; with some `Object`, all results are `Object`s and the last is the last `Object` in pre-order; with none, the result starts with `(Root, "root")` |
| `XmlTree.RootsWithoutObjects` | tests/ExportXML/UT_ExportXML_20230427_003_01.py:275-280 | with no `Object`, every result is a `Root` element (the fallback) |
| `XmlTree.LastObject` | tests/ExportXML/UT_ExportXML_20230427_002_01.py:283-289 | a last `Object`, when found, is an `Object` |
| `XmlTree.LastObjectSound` | tests/ExportXML/UT_ExportXML_20230427_002_01.py:283-289 | the last `Object` found sits at its address with its path |
| `XmlTree.NoObjectIffNone` | tests/ExportXML/UT_ExportXML_20230427_002_01.py:279-281 | there is no last `Object` exactly when the tree holds no `Object` |
| `XmlTree.LastOfWalk` | tests/ExportXML/UT_ExportXML_20230427_002_01.py:276-281 | the last element of the `Object` walk is the last `Object`, and the walk is empty exactly when there is none |
| `XmlTree.AppendOnChain` | tests/ExportXML/UT_ExportXML_20230427_002_01.py:311-313 | appending a leaf `Object` under a parent on the rightmost `Object` chain makes it the last `Object` in pre-order |
| `XmlTree.AppendOffChain` | tests/ExportXML/UT_ExportXML_20230427_002_01.py:311-313 | appending under a parent off that chain leaves some later `Object` last, at another address |
| `XmlTree.AppendUnderChild` | tests/ExportXML/UT_ExportXML_20230427_003_01.py:310-312 | off-chain below the first child with nothing later: the last `Object` is not the new one |
| `XmlTree.AppendIsLastIff` | tests/ExportXML/UT_ExportXML_20230427_002_01.py:311-313 | the new leaf `Object` is the last one in pre-order exactly when its parent is on the rightmost chain |
| `XmlTree.AppendLastIff` | tests/ExportXML/UT_ExportXML_20230427_003_01.py:310-312 | from `Root`: the last `Object`'s path and address are the new element's exactly when the parent is on the rightmost chain |
| `XmlCreate.RootNode` | tests/ExportXML/UT_ExportXML_20230427_002_01.py:33-35 | `Root` with exactly the two xmlns attributes, `xsd` then `xsi`, and no children |
| `XmlCreate.DataSourceNode` | tests/ExportXML/UT_ExportXML_20230427_002_01.py:37-41 | `DataSource` with exactly ProductType, Version, Source, equal to the three arguments |
| `XmlCreate.Factory` | tests/ExportXML/UT_ExportXML_20230427_003_01.py:19-33 | `Root` with exactly the two xmlns attributes; its only child is `DataSource` with the three arguments; no `Object` |
| `XmlCreate.FactoryByAttribute` | tests/ExportXML/UT_ExportXML_20230425_002_01.py:15-31 | building the skeleton through `add_attribute` gives the same document as the later factories |
| `XmlCreate.RootNodeBySet` | tests/ExportXML/UT_ExportXML_20230425_002_01.py:19-21 | `Root` is an empty `Root` after setting the two xmlns attributes in turn |
| `XmlCreate.DataSourceNodeBySet` | tests/ExportXML/UT_ExportXML_20230425_002_01.py:23-26 | `DataSource` is an empty `DataSource` after setting the three attributes in turn |
| `XmlCreate.ObjectNode` | tests/ExportXML/UT_ExportXML_20230426_002_02.py:195-207 | the element is an `Object` and has no children |
| `XmlCreate.ObjectNodeKeys` | tests/ExportXML/UT_ExportXML_20230426_002_02.py:195-207 | the `Object`'s attributes are exactly the nine keys type…noted in order (seven, without id and remark, in the 2023-04-26 building draft) |
| `XmlCreate.FullObjectGets` | tests/ExportXML/UT_ExportXML_20230427_002_01.py:301-310 | each of the nine attributes holds its field verbatim |
| `XmlCreate.ShortObjectGets` | tests/ExportXML/UT_ExportXML_20230426_001_01.py:91-98 | each of the seven attributes holds its field verbatim |
| `XmlCreate.ShortObjectLacks` | tests/ExportXML/UT_ExportXML_20230426_001_01.py:91-98 | the seven-attribute `Object` has no `id` and no `remark` |
| `XmlCreate.ReadAttributes` | tests/ExportXML/UT_ExportXML_20230427_002_01.py:301-310 | reading the attribute record back succeeds exactly when all nine keys are present |
| `XmlCreate.ObjectNodeRoundTrip` | tests/ExportXML/UT_ExportXML_20230427_002_01.py:301-310 | reading the nine attributes of a written `Object` gives the record back; the seven-attribute one cannot be read back |
| `XmlCreate.TripleRoundTrip` | tests/ExportXML/UT_ExportXML_20230427_002_01.py:244-258 | a triple element has exactly x, y, z and reads back to the triple |
| `XmlCreate.TransformNode` | tests/ExportXML/UT_ExportXML_20230426_002_02.py:209-223 | a `Transform` whose three children are `position`, `rotation` and `scale`, in that order |
| `XmlCreate.ReadTransform` | tests/ExportXML/UT_ExportXML_20230426_002_02.py:209-223 | a transform is read only from a `Transform` whose children are position, rotation, scale in that order |
| `XmlCreate.TransformRoundTrip` | tests/ExportXML/UT_ExportXML_20230427_002_01.py:318-330 | reading a written `Transform` gives back the position, rotation and scale, each x, y, z |
| `XmlCreate.PlacedFacts` | tests/ExportXML/UT_ExportXML_20230427_002_01.py:301-330 | an added element is an `Object` with the record's attributes and one `Transform` child that reads back to the transform |
| `XmlCreate.FactoryWithBuilding` | tests/ExportXML/UT_ExportXML_20230425_003_01.py:15-36 | `Root`'s children are `DataSource` (the three arguments) and then one childless `Object` with the seven keys |
| `XmlCreate.FactoryWithBuildingAttrs` | tests/ExportXML/UT_ExportXML_20230425_003_01.py:28-35 | the skeleton's `Object` has type `Building`, empty category, name, alias, model, time and noted, and no id or remark |
| `XmlCreate.PrefixesDisjoint` | tests/ExportXML/UT_ExportXML_20230427_003_01.py:71-87 | the four class prefixes all start `Ifc` and no key starts with two of them |
| `XmlCreate.ParseStep` | tests/ExportXML/UT_ExportXML_20230427_002_01.py:73-88 | one name raises `IndexError` exactly when it starts `Ifc` and has no `/` |
| `XmlCreate.ParseStepFields` | tests/ExportXML/UT_ExportXML_20230427_002_01.py:80-88 | a project, site or building name replaces the earlier one; a storey name is put under its local name, so a later duplicate overwrites it in place |
| `XmlCreate.ParseIfcCollections` | tests/ExportXML/UT_ExportXML_20230427_002_01.py:72-88 | errors are `IndexError` only, and the storey dict is well formed |
| `XmlCreate.ParseFailsIff` | tests/ExportXML/UT_ExportXML_20230427_002_01.py:72-88 | parsing fails exactly when some name starts `Ifc` and has no `/` |
| `XmlCreate.LastWithPrefix` | tests/ExportXML/UT_ExportXML_20230426_001_01.py:71-87 | the name found carries the prefix |
| `XmlCreate.LastWithPrefixIsLast` | tests/ExportXML/UT_ExportXML_20230426_001_01.py:71-87 | nothing is found exactly when no name has the prefix; otherwise it is a listed name, and no later name has the prefix |
| `XmlCreate.LastStorey` | tests/ExportXML/UT_ExportXML_20230426_002_02.py:70-86 | the storey name found defines the asked-for local name |
| `XmlCreate.LastStoreyIsLast` | tests/ExportXML/UT_ExportXML_20230426_002_02.py:70-86 | it is a listed name, and no later name defines the same local storey |
| `XmlCreate.LastStoreyNone` | tests/ExportXML/UT_ExportXML_20230426_002_02.py:70-86 | nothing is found exactly when no name defines that local storey |
| `XmlCreate.ParseBuilding` | tests/ExportXML/UT_ExportXML_20230427_003_01.py:71-87 | the parsed building is the last `IfcBuilding/` name |
| `XmlCreate.ParseStoreyKeys` | tests/ExportXML/UT_ExportXML_20230427_003_01.py:71-87 | the storey keys are the distinct local storey names, in order of first appearance |
| `XmlCreate.ParseStoreyGets` | tests/ExportXML/UT_ExportXML_20230427_002_01.py:72-88 | each local storey name maps to the last name that defines it, and to nothing when none does |
| `XmlCreate.ParentAddr` | tests/ExportXML/UT_ExportXML_20230427_002_01.py:297-299 | with an empty cache the parent is `Root`, whatever the path; otherwise it is the cached element, and a missing path raises `KeyError(path)` |
| `XmlCreate.AddElement` | tests/ExportXML/UT_ExportXML_20230427_002_01.py:291-332 | fails exactly on a missing parent path (`KeyError(path)`) or a missing transform (`KeyError("position")`) |
| `XmlCreate.AddElementSteps` | tests/ExportXML/UT_ExportXML_20230427_002_01.py:297-330 | the new `Object` goes under the parent; the last pre-order `Object` of that tree is cached and returned; the `Transform` goes under the new `Object` |
| `XmlCreate.AddElementTree` | tests/ExportXML/UT_ExportXML_20230427_002_01.py:297-330 | the resulting tree is the old one with the `Object`-plus-`Transform` appended under the parent |
| `XmlCreate.AddElementRegistersLast` | tests/ExportXML/UT_ExportXML_20230427_002_01.py:311-313 | the returned path is the last pre-order `Object`'s path, cached at its address; every other cache entry is unchanged |
| `XmlCreate.AddElementWf` | tests/ExportXML/UT_ExportXML_20230427_002_01.py:311-313 | after adding, every cached path still leads to an `Object` whose path it is |
| `XmlCreate.AddElementOwnPathIff` | tests/ExportXML/UT_ExportXML_20230427_003_01.py:310-312 | the returned path is the new element's own path, cached at its own address, exactly when the parent is on the rightmost `Object` chain |
| `XmlCreate.AddElementFixed` | tests/ExportXML/UT_ExportXML_20230427_002_01.py:291-332 | the corrected `add_element` fails in the same cases, with the same errors |
| `XmlCreate.AddElementFixedRegistersNew` | tests/ExportXML/UT_ExportXML_20230427_002_01.py:311-313 | the corrected `add_element` caches and returns the new element's own path at its own address, and the cache stays well formed |
| `XmlCreate.AddElementAgreesOnChain` | tests/ExportXML/UT_ExportXML_20230427_002_01.py:311-313 | for a parent on the rightmost chain, the as-written and corrected `add_element` agree |
| `XmlCreate.AddElementOnChain` | tests/ExportXML/UT_ExportXML_20230427_002_01.py:59-65 | on the rightmost chain, `add_element` appends under the parent, returns parent path + `/` + name, and caches it at the new address |
| `XmlTree.AppendOffChainKeepsLast` | tests/ExportXML/UT_ExportXML_20230427_002_01.py:283-289 | appending under a parent off the rightmost `Object` chain leaves the last `Object` in pre-order, its path and its address as they were |
| `XmlCreate.AddElementOffChainRepeats` | tests/ExportXML/UT_ExportXML_20230427_002_01.py:297-313 | for a parent off the rightmost chain, the tree gets the new `Object` under the parent, but the path returned and cached is the path of the `Object` that was already last, at its old address |
| `XmlCreate.AddElementMissesRoomUnderFirstStorey` | tests/ExportXML/UT_ExportXML_20230427_002_01.py:291-313 | from `factory` with an empty cache: building `B` goes under `Root` and returns `root/B`; storeys `S1`, `S2` under `root/B` return `root/B/S1` and `root/B/S2`; the room `R` under `root/B/S1` is placed below `S1` but the call returns `root/B/S2`, and `root/B/S1/R` is never cached |
| `XmlCreate.AddElementFixedFindsRoomUnderFirstStorey` | tests/ExportXML/UT_ExportXML_20230427_002_01.py:291-313 | the corrected `add_element` on the same four calls returns the same first three paths and then `root/B/S1/R`, cached at the room's address below `S1` |
| `XmlExecute.Field` | tests/ExportXML/UT_ExportXML_20230427_002_01.py:386-387 | `ifc_info[key]` raises `KeyError(key)` exactly for a key outside `data`, `head`, `name` |
| `XmlExecute.FieldsDetermine` | tests/ExportXML/UT_ExportXML_20230427_002_01.py:386-387 | two infos with the same three fields are the same info |
| `XmlExecute.FindBlObject` | tests/ExportXML/UT_ExportXML_20230427_002_01.py:382-390 | a returned record is a stored one whose field matches; `None` only when no stored record matches; a bad key raises `KeyError` exactly when something is stored |
| `XmlExecute.CreateXmlBuilding` | tests/ExportXML/UT_ExportXML_20230427_002_01.py:90-147 | creating the building keeps the document well formed |
| `XmlExecute.CreateXmlStoreyUnder` | tests/ExportXML/UT_ExportXML_20230427_002_01.py:152-203 | creating a storey keeps the document well formed |
| `XmlExecute.CreateXmlBuildingStorey` | tests/ExportXML/UT_ExportXML_20230427_002_01.py:149-203 | the parent looked up is a stored `IfcBuilding` record, or there is none at all; the storey is then created under it |
| `XmlExecute.StoreyTransforms` | tests/ExportXML/UT_ExportXML_20230426_001_01.py:138-186 | one transform per storey, or `KeyError("position")` |
| `XmlExecute.StoreyTransformsFailIff` | tests/ExportXML/UT_ExportXML_20230426_001_01.py:138-186 | the storeys fail exactly when some storey has no proxy EMPTY |
| `XmlExecute.StoreyTransformsValues` | tests/ExportXML/UT_ExportXML_20230426_002_02.py:152-168 | each storey's transform is its own proxy's |
| `XmlExecute.DirectDocument` | tests/ExportXML/UT_ExportXML_20230426_002_02.py:88-168 | the direct draft fails exactly when there is no building, or the building or some storey has no proxy EMPTY: `KeyError("name")` without a building, else `KeyError("position")`; otherwise `Root` holds `DataSource` and one more child |
| `XmlExecute.DirectDocumentReads` | tests/ExportXML/UT_ExportXML_20230426_002_02.py:88-168 | read back, `Root`'s second child is an `Object` with the building's attributes whose first child reads as the building proxy's transform, followed by exactly one `Object` per storey in dict order, each reading back as that storey's attributes with its own proxy's transform |
| `XmlExecute.DirectBuild` | tests/ExportXML/UT_ExportXML_20230426_001_01.py:58-64 | any unsplittable `Ifc` name raises `IndexError`; otherwise the document is the direct construction over the parsed names |
| `XmlExecute.ParsedEntries` | tests/ExportXML/UT_ExportXML_20230427_002_01.py:72-88 | the parsed building and storeys are genuine `IfcBuilding` / `IfcBuildingStorey` entries of listed names, the storeys with distinct local names |
| `XmlExecute.CacheOfEntries` | tests/ExportXML/UT_ExportXML_20230427_002_01.py:311-313 | after the building and `n` storeys, the building is cached at `[1]`, storey `j` at `[1, j+1]`, and nothing else |
| `XmlExecute.PlacedOfEntries` | tests/ExportXML/UT_ExportXML_20230427_002_01.py:140-147 | the stored records hold the building under `root` and each storey under the building, and the building is the only `IfcBuilding` record |
| `XmlExecute.BuildingStep` | tests/ExportXML/UT_ExportXML_20230427_002_01.py:90-147 | a successful building step appends the building, with its proxy's transform, as `Root`'s second child, and caches and records it |
| `XmlExecute.BuildingFails` | tests/ExportXML/UT_ExportXML_20230427_002_01.py:90-147 | the building step fails with `KeyError("name")` when there is no building and with `KeyError("position")` when it has no proxy |
| `XmlExecute.StoreyFails` | tests/ExportXML/UT_ExportXML_20230427_002_01.py:149-203 | a storey step under the building fails only with `KeyError("position")`, when the storey has no proxy |
| `XmlExecute.DirectDocumentStoreyFails` | tests/ExportXML/UT_ExportXML_20230426_002_02.py:152-168 | a storey without a proxy makes the direct draft fail with `KeyError("position")` |
| `XmlExecute.StoreyStep` | tests/ExportXML/UT_ExportXML_20230427_002_01.py:149-203 | one storey step appends the storey last under the building and caches it at `[1, i+1]` under its own path |
| `XmlExecute.StoreyTurn` | tests/ExportXML/UT_ExportXML_20230427_002_01.py:62-63 | one storey step keeps the tree, cache and records equal to the direct construction's after one more storey |
| `XmlExecute.CreateXmlStoreyStep` | tests/ExportXML/UT_ExportXML_20230427_002_01.py:62-63 | the storey step as the loop runs it: a storey Blender does not know raises `KeyError` on its own collection name; otherwise the step succeeds exactly when the storey has its proxy, success extends the loop invariant by one storey, and failure is `KeyError("position")` |
| `XmlExecute.CreateXmlStoreys` | tests/ExportXML/UT_ExportXML_20230427_002_01.py:62-63 | the storey loop: success yields the building with all storey `Object`s in dict order, each cached at its own address; failure is exactly a storey without a proxy |
| `XmlExecute.Execute` | tests/ExportXML/UT_ExportXML_20230427_002_01.py:59-65 | `execute` raises `IndexError` on an unsplittable name; a success is well formed and equals the direct construction, with every building and storey path cached at its own element; a failure is the direct construction's failure |

## Left out

- Blender itself (`bpy`): reading collections and objects is the injected `Scene.Snapshot`. Creating instances, `set_parent`, `move_to_collection`, link/unlink, `set_location`/`set_rotation`/`set_scale` and `reduce_ifc_objects` become dict updates. The instance made for key `k` is named `k`. Blender may rename a duplicate (`obj.001`), and the builder stores the returned name as `ifc_inst`; the program only ever uses that stored name, so naming the instance by its key is a consistent renaming.
- `Mirror.Element.SetAttr`, `Mirror.Element.RemoveAttr` and `Mirror.Element.UpdateAttr` also write or delete the same key among the Blender object's custom properties (`self.obj[key]`); the model keeps only the element's own attribute dict.
- `matrix_world.to_translation/to_euler/to_scale`, `define_transform` / `define_ifc_transform` and `save_ifc_transform`: float maths and float-to-string formatting. A transform is an opaque triple of three string triples taken from the snapshot. So `save_ifc_transform` storing the strings back into the storey's info dict is not modelled separately.
- `get_date_time` (`datetime.now()`): the clock is one `time` input shared by every element of a run.
- `store_collections`: the list of collection names handed to `parse_ifc_collections` is an input.
- `add_properties` of the path-indexed builder writes custom properties onto Blender collections. `eval`/`__str__` of `ifc_info` is read as an exact round trip. The model keeps only the stored record (`XmlExecute.Record`).
- `ParentMap.DefineIfcParent`: the ensures states only that a found parent is a scanned collection claiming the object; that it is the first claim, and when the result is `None`, are stated in `ParentMap.DefineIfcParentFirstMatch`.
- `XmlCreate.ObjectNode`: the ensures states only the tag and that it has no children; the keys and their order are in `XmlCreate.ObjectNodeKeys`, the values in `XmlCreate.FullObjectGets`, `XmlCreate.ShortObjectGets` and `XmlCreate.ShortObjectLacks`, and the read-back in `XmlCreate.ObjectNodeRoundTrip`.
- `XmlCreate.TransformNode`: the ensures states the tag and the order of the three children; the `x`, `y`, `z` layout and the values are in `XmlCreate.TripleRoundTrip` and `XmlCreate.TransformRoundTrip`.
- `XmlCreate.LastWithPrefix`: the ensures states only that a found name carries the prefix; that it is the last such name, and `None` exactly when there is none, are in `XmlCreate.LastWithPrefixIsLast`.
- `XmlCreate.LastStorey`: the ensures states only that a found name defines the local storey; that it is the last such name is in `XmlCreate.LastStoreyIsLast`, and `None` exactly when there is none in `XmlCreate.LastStoreyNone`.
- `XmlExecute.DirectDocument`: the ensures states the failures and the first child; what the building child holds is in `XmlExecute.DirectDocumentReads`.
- `XmlExecute.FindBlObject`: Python iterates a `set`, so the model lets any matching record be returned rather than a particular one.
- `export_xml`, `Et.indent`, `ElementTree.write`, the hard-coded output paths, `os.system('cls')` and every `print`.
- `select_collection` and the FBX/UI/addon files: UI and editor side effects.
- Python object identity (`factory` returning a fresh builder, `dict(content)` snapshots): every value in the model is immutable, so independence holds trivially.
- `XmlExecute.CreateXmlBuilding`: the ensures states only well-formedness; what the step builds is stated in `XmlExecute.BuildingStep` and `XmlExecute.BuildingFails`.
- `XmlExecute.CreateXmlStoreyUnder`: the ensures states only well-formedness; what the step builds is stated in `XmlExecute.StoreyStep`, `XmlExecute.StoreyFails` and `XmlExecute.StoreyTurn`.
- `XmlCreate.ParseIfcCollections`: the ensures states only the error kind and a well-formed storey dict; the contents are stated in `XmlCreate.ParseFailsIff`, `XmlCreate.ParseBuilding`, `XmlCreate.ParseStoreyKeys` and `XmlCreate.ParseStoreyGets`.
- `XmlTree.Walk`: the ensures states only the pre-order head; soundness and completeness are `XmlTree.WalkSound` and `XmlTree.WalkComplete`.
- `XmlTree.LastObject`: the ensures states only the tag; the rest is in `XmlTree.LastObjectSound`, `XmlTree.NoObjectIffNone` and `XmlTree.LastOfWalk`.
- `XmlCreate.AddElement`: the ensures states only the error cases; the tree and the cache are in `XmlCreate.AddElementSteps`, `XmlCreate.AddElementTree`, `XmlCreate.AddElementRegistersLast` and `XmlCreate.AddElementWf`.
- `Mirror.ETreeExecute`: the ensures covers the unexecuted builder and the error kinds; the elements built are in `Mirror.ETreeExecuteBuilt`.
- `Mirror.Pipeline`: the ensures covers the gating quirk and the incomplete table; the rest is in `Mirror.PipelineUnfolds`, `Mirror.PipelineMirrors` and `Mirror.PipelineKeepsAliases`.
- `XmlExecute.CreateXmlStoreys` and `XmlExecute.Execute`: the failure case is tied to the direct construction only when every listed name is a scene collection. A name missing from the scene is a Blender lookup failure, which the snapshot does not model.
- The 2023-04-26 drafts stop at the first storey without a proxy; the model returns that one `KeyError("position")` and drops the partial document.

## Findings

| source | as written | input that shows it | evidently intended | confidence | as-written member | corrected member |
|---|---|---|---|---|---|---|
| tests/UT_3_IFCETree_20230502_001_02_X.py:163-167 | `init_ifc_collections` removes ignored names from the list it is iterating, so the name right after a removed one is never looked at | root `IfcProject/` whose descendants are `Views`, `Types`: the result is `IfcProject/`, `Types` | every ignored collection name is dropped | not executed | `ParentMap.InitIfcCollectionsSkipsAdjacent` | `ParentMap.InitIfcCollectionsFiltered` |
| tests/ExportXML/UT_ExportXML_20230427_002_01.py:311-313 | `add_element` caches and returns the path of the last `Object` in pre-order as the new element's path | from `factory` with an empty cache: building `B` (parent ignored, goes under `Root`, returns `root/B`), storeys `S1` and `S2` under `root/B`, then room `R` under `root/B/S1`: the room call returns `root/B/S2`, and `root/B/S1/R` is never cached | the new element's own path (parent path + `/` + name) is cached at the new element | not executed | `XmlCreate.AddElementMissesRoomUnderFirstStorey` | `XmlCreate.AddElementFixedRegistersNew` |
