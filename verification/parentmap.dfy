/** Parent-map inference: the IFCParser drafts turn the snapshot into a table from
    each object name to the collection that holds it. Two scans are modelled, the
    per-object first-match scan (`define_ifc_parent`, 2023-05-02 onwards) and the
    older proxy-driven scan (`define_parent` / `define_ifc_tree` / `define_inherit`,
    2023-04-28), and two policies for the auxiliary `Views`/`Types`/... collections:
    removal from a list while iterating it, and popping them from dicts (`sorting`). */
module ParentMap {
  import opened Common
  import opened Dicts
  import opened Scene
  import Ident

  /** The auxiliary IFC collections whose contents are not part of the building tree. */
  const IfcIgnore: seq<string> := ["Views", "Types", "StructuralItems", "Members", "Connections"]

  // ---------------------------------------------------------------------------
  // define_ifc_parent: first match over the collection list
  // ---------------------------------------------------------------------------

  /** Collection `col` lists `obj` among its child collections or its objects. */
  predicate Claims(s: Snapshot, col: string, obj: string)
  {
    obj in s.Children(col) || obj in s.Objects(col)
  }

  /** `cols[i]` is the first collection of `cols` that claims `obj`. */
  predicate FirstClaimAt(s: Snapshot, cols: seq<string>, obj: string, i: int)
  {
    && 0 <= i < |cols|
    && Claims(s, cols[i], obj)
    && forall j :: 0 <= j < i ==> !Claims(s, cols[j], obj)
  }

  /** `define_ifc_parent`: scan `cols` in order; at each collection check the child
      collections first, then the objects; an object found in its own same-named
      collection (the proxy of that collection) has no parent. */
  function DefineIfcParent(s: Snapshot, cols: seq<string>, obj: string): (r: Option<string>)
    ensures r.Some? ==> r.value in cols && Claims(s, r.value, obj)
  {
    if |cols| == 0 then None
    else if obj in s.Children(cols[0]) then Some(cols[0])
    else if obj in s.Objects(cols[0]) then (if obj == cols[0] then None else Some(cols[0]))
    else DefineIfcParent(s, cols[1..], obj)
  }

  /** The parent is the first claiming collection, unless that claim is the object's
      own same-named collection listing it as an object; `None` also when no
      collection claims it. */
  lemma {:induction false} DefineIfcParentFirstMatch(s: Snapshot, cols: seq<string>, obj: string)
    ensures DefineIfcParent(s, cols, obj).Some? ==>
              exists i :: FirstClaimAt(s, cols, obj, i) && cols[i] == DefineIfcParent(s, cols, obj).value
                          && (obj in s.Children(cols[i]) || obj != cols[i])
    ensures DefineIfcParent(s, cols, obj).None? <==>
              (forall i :: 0 <= i < |cols| ==> !Claims(s, cols[i], obj))
              || (exists i :: FirstClaimAt(s, cols, obj, i) && obj !in s.Children(cols[i]) && obj == cols[i])
  {
    if |cols| > 0 && !Claims(s, cols[0], obj) {
      DefineIfcParentFirstMatch(s, cols[1..], obj);
      forall i | FirstClaimAt(s, cols[1..], obj, i) ensures FirstClaimAt(s, cols, obj, i + 1) {
        assert cols[1..][i] == cols[i + 1];
        forall j | 0 <= j < i + 1 ensures !Claims(s, cols[j], obj) {
          if j > 0 { assert cols[1..][j - 1] == cols[j]; }
        }
      }
      forall i | FirstClaimAt(s, cols, obj, i) ensures i > 0 && FirstClaimAt(s, cols[1..], obj, i - 1) {
        assert cols[1..][i - 1] == cols[i];
        forall j | 0 <= j < i - 1 ensures !Claims(s, cols[1..][j], obj) {
          assert cols[1..][j] == cols[j + 1];
        }
      }
      if forall i :: 0 <= i < |cols[1..]| ==> !Claims(s, cols[1..][i], obj) {
        forall i | 0 <= i < |cols| ensures !Claims(s, cols[i], obj) {
          if i > 0 { assert cols[1..][i - 1] == cols[i]; }
        }
      }
      if forall i :: 0 <= i < |cols| ==> !Claims(s, cols[i], obj) {
        forall i | 0 <= i < |cols[1..]| ensures !Claims(s, cols[1..][i], obj) {
          assert cols[1..][i] == cols[i + 1];
        }
      }
    } else if |cols| > 0 {
      assert FirstClaimAt(s, cols, obj, 0);
      forall i | FirstClaimAt(s, cols, obj, i) ensures i == 0 { }
    }
  }

  // ---------------------------------------------------------------------------
  // init_ifc_collections: removing ignored names while iterating the list
  // ---------------------------------------------------------------------------

  /** Position of the first occurrence of `x` (`l.index(x)`). */
  function IndexOf(l: seq<string>, x: string): (p: nat)
    requires x in l
    ensures p < |l| && l[p] == x && x !in l[..p]
  {
    if l[0] == x then 0
    else
      var p := IndexOf(l[1..], x);
      assert l[..p + 1] == [l[0]] + l[1..][..p];
      p + 1
  }

  /** `l.remove(x)`: drop the first occurrence of `x`. */
  function RemoveFirst(l: seq<string>, x: string): (r: seq<string>)
    requires x in l
    ensures |r| == |l| - 1
  {
    var p := IndexOf(l, x);
    l[..p] + l[p + 1..]
  }

  /** `for col in l: if col in ignore: l.remove(col)` from position `i` on. Python's
      list iterator advances an index, so after a removal the element that slid into
      the current slot is never looked at. */
  function RemoveWhileIterating(l: seq<string>, i: nat, ignore: seq<string>): seq<string>
    decreases |l| - i
  {
    if i >= |l| then l
    else if l[i] in ignore then RemoveWhileIterating(RemoveFirst(l, l[i]), i + 1, ignore)
    else RemoveWhileIterating(l, i + 1, ignore)
  }

  /** `init_ifc_collections` of the 2023-05-02 draft, as written. */
  function InitIfcCollections(s: Snapshot): seq<string>
  {
    RemoveWhileIterating(s.CollectionNames(), 0, IfcIgnore)
  }

  /** The names of `l` that are not ignored, in order. */
  function FilterIgnored(l: seq<string>, ignore: seq<string>): (r: seq<string>)
    ensures |r| <= |l|
  {
    if |l| == 0 then []
    else if l[0] in ignore then FilterIgnored(l[1..], ignore)
    else [l[0]] + FilterIgnored(l[1..], ignore)
  }

  /** The filter keeps exactly the names that are not ignored. */
  lemma {:induction false} FilterIgnoredMembers(l: seq<string>, ignore: seq<string>)
    ensures forall x :: x in FilterIgnored(l, ignore) <==> x in l && x !in ignore
  {
    if |l| > 0 {
      FilterIgnoredMembers(l[1..], ignore);
      assert l == [l[0]] + l[1..];
    }
  }

  lemma {:induction false} FilterConcat(a: seq<string>, b: seq<string>, ignore: seq<string>)
    ensures FilterIgnored(a + b, ignore) == FilterIgnored(a, ignore) + FilterIgnored(b, ignore)
  {
    if |a| > 0 {
      assert (a + b)[1..] == a[1..] + b;
      FilterConcat(a[1..], b, ignore);
    } else {
      assert a + b == b;
    }
  }

  /** Removing one ignored name leaves the filtered list unchanged. */
  lemma RemoveFirstIgnored(l: seq<string>, x: string, ignore: seq<string>)
    requires x in l && x in ignore
    ensures FilterIgnored(RemoveFirst(l, x), ignore) == FilterIgnored(l, ignore)
  {
    var p := IndexOf(l, x);
    assert l == l[..p] + ([l[p]] + l[p + 1..]);
    FilterConcat(l[..p], [l[p]] + l[p + 1..], ignore);
    FilterConcat([l[p]], l[p + 1..], ignore);
    FilterConcat(l[..p], l[p + 1..], ignore);
  }

  /** The list removal only ever drops ignored names: every other name survives, in
      its original order. */
  lemma {:induction false} RemoveWhileIteratingKeepsOthers(l: seq<string>, i: nat, ignore: seq<string>)
    ensures FilterIgnored(RemoveWhileIterating(l, i, ignore), ignore) == FilterIgnored(l, ignore)
    decreases |l| - i
  {
    if i < |l| {
      if l[i] in ignore {
        RemoveFirstIgnored(l, l[i], ignore);
        RemoveWhileIteratingKeepsOthers(RemoveFirst(l, l[i]), i + 1, ignore);
      } else {
        RemoveWhileIteratingKeepsOthers(l, i + 1, ignore);
      }
    }
  }

  /** No two ignored names stand next to each other. */
  predicate NoAdjacentIgnored(l: seq<string>, ignore: seq<string>)
  {
    forall k :: 0 <= k < |l| - 1 ==> !(l[k] in ignore && l[k + 1] in ignore)
  }

  lemma {:induction false} RemoveWhileIteratingSpacedFrom(l: seq<string>, i: nat, ignore: seq<string>)
    requires i <= |l|
    requires forall k :: 0 <= k < i ==> l[k] !in ignore
    requires forall k :: i <= k < |l| - 1 ==> !(l[k] in ignore && l[k + 1] in ignore)
    ensures RemoveWhileIterating(l, i, ignore) == l[..i] + FilterIgnored(l[i..], ignore)
    decreases |l| - i, 1
  {
    if i == |l| {
      assert l[..i] == l;
      assert l[i..] == [];
    } else if l[i] in ignore {
      SpacedStepIgnored(l, i, ignore);
    } else {
      assert l[i..] == [l[i]] + l[i + 1..];
      FilterConcat([l[i]], l[i + 1..], ignore);
      assert l[..i + 1] == l[..i] + [l[i]];
      RemoveWhileIteratingSpacedFrom(l, i + 1, ignore);
    }
  }

  lemma {:induction false} SpacedStepIgnored(l: seq<string>, i: nat, ignore: seq<string>)
    requires i < |l| && l[i] in ignore
    requires forall k :: 0 <= k < i ==> l[k] !in ignore
    requires forall k :: i <= k < |l| - 1 ==> !(l[k] in ignore && l[k + 1] in ignore)
    ensures RemoveWhileIterating(l, i, ignore) == l[..i] + FilterIgnored(l[i..], ignore)
    decreases |l| - i, 0
  {
    var l' := RemoveFirst(l, l[i]);
    RemoveFirstAtFirstIgnored(l, i, ignore);
    if i + 1 == |l| {
      DropLastIgnored(l, i, ignore);
    } else {
      DropIgnoredSpaced(l, i, ignore);
      RemoveWhileIteratingSpacedFrom(l', i + 1, ignore);
    }
  }

  /** Dropping an ignored last name leaves the prefix, which is also what the filter
      leaves of the tail. */
  lemma DropLastIgnored(l: seq<string>, i: nat, ignore: seq<string>)
    requires i + 1 == |l| && l[i] in ignore
    ensures l[..i] + l[i + 1..] == l[..i] + FilterIgnored(l[i..], ignore)
  {
    assert l[i..] == [l[i]];
    assert l[i + 1..] == [];
    assert FilterIgnored([l[i]], ignore) == FilterIgnored([l[i]][1..], ignore);
  }

  /** Dropping an ignored name at `i` whose successor is kept: the shorter list meets
      the spacing conditions from `i + 1` on, and its prefix and filtered tail are
      those of the original. */
  lemma DropIgnoredSpaced(l: seq<string>, i: nat, ignore: seq<string>)
    requires i + 1 < |l| && l[i] in ignore
    requires forall k :: 0 <= k < i ==> l[k] !in ignore
    requires forall k :: i <= k < |l| - 1 ==> !(l[k] in ignore && l[k + 1] in ignore)
    ensures var l' := l[..i] + l[i + 1..];
      && (forall k :: 0 <= k < i + 1 ==> l'[k] !in ignore)
      && (forall k :: i + 1 <= k < |l'| - 1 ==> !(l'[k] in ignore && l'[k + 1] in ignore))
      && l'[..i + 1] + FilterIgnored(l'[i + 1..], ignore) == l[..i] + FilterIgnored(l[i..], ignore)
  {
    var l' := l[..i] + l[i + 1..];
    assert forall k :: 0 <= k < |l'| ==> l'[k] == if k < i then l[k] else l[k + 1];
    assert l'[..i + 1] == l[..i] + [l[i + 1]];
    assert l'[i + 1..] == l[i + 2..];
    DropIgnoredFilter(l, i, ignore);
  }

  /** The filtered tail from an ignored name followed by a kept one. */
  lemma DropIgnoredFilter(l: seq<string>, i: nat, ignore: seq<string>)
    requires i + 1 < |l| && l[i] in ignore && l[i + 1] !in ignore
    ensures FilterIgnored(l[i..], ignore) == [l[i + 1]] + FilterIgnored(l[i + 2..], ignore)
  {
    assert l[i..] == [l[i]] + l[i + 1..];
    FilterConcat([l[i]], l[i + 1..], ignore);
    assert l[i + 1..] == [l[i + 1]] + l[i + 2..];
    FilterConcat([l[i + 1]], l[i + 2..], ignore);
    assert FilterIgnored([l[i]], ignore) == [];
    assert FilterIgnored([l[i + 1]], ignore) == [l[i + 1]];
  }

  /** Removing the first ignored name of a list whose prefix holds none removes it
      at its own position. */
  lemma RemoveFirstAtFirstIgnored(l: seq<string>, i: nat, ignore: seq<string>)
    requires i < |l| && l[i] in ignore
    requires forall k :: 0 <= k < i ==> l[k] !in ignore
    ensures RemoveFirst(l, l[i]) == l[..i] + l[i + 1..]
  {
    var p := IndexOf(l, l[i]);
    assert l[p] in ignore;
    assert forall k :: 0 <= k < p ==> l[..p][k] == l[k];
  }

  /** When ignored names are never adjacent the list removal does what it means to:
      it equals the filter. */
  lemma RemoveWhileIteratingFiltersWhenSpaced(l: seq<string>, ignore: seq<string>)
    requires NoAdjacentIgnored(l, ignore)
    ensures RemoveWhileIterating(l, 0, ignore) == FilterIgnored(l, ignore)
  {
    RemoveWhileIteratingSpacedFrom(l, 0, ignore);
    assert l[..0] == [] && l[0..] == l;
  }

  /** The skip: with `Views` directly followed by `Types`, removing `Views` slides
      `Types` into the slot just visited, so `Types` survives. */
  lemma InitIfcCollectionsSkipsAdjacent(s: Snapshot)
    requires s.root == "IfcProject/" && s.descendants == ["Views", "Types"]
    ensures InitIfcCollections(s) == ["IfcProject/", "Types"]
  {
    var l := ["IfcProject/", "Views", "Types"];
    assert s.CollectionNames() == l;
    assert "Views" in IfcIgnore && "IfcProject/" !in IfcIgnore;
    assert IndexOf(l, "Views") == 1;
    var l' := RemoveFirst(l, "Views");
    assert l' == ["IfcProject/", "Types"];
    assert RemoveWhileIterating(l, 0, IfcIgnore) == RemoveWhileIterating(l, 1, IfcIgnore);
    assert RemoveWhileIterating(l, 1, IfcIgnore) == RemoveWhileIterating(l', 2, IfcIgnore);
  }

  /** The corrected `init_ifc_collections`: filter the ignored names out. */
  function InitIfcCollectionsFiltered(s: Snapshot): (r: seq<string>)
    ensures forall x :: x in r ==> x !in IfcIgnore
    ensures forall x :: x in r <==> x in s.CollectionNames() && x !in IfcIgnore
    ensures FilterIgnored(InitIfcCollections(s), IfcIgnore) == r
  {
    RemoveWhileIteratingKeepsOthers(s.CollectionNames(), 0, IfcIgnore);
    FilterIgnoredMembers(s.CollectionNames(), IfcIgnore);
    FilterIgnored(s.CollectionNames(), IfcIgnore)
  }

  // ---------------------------------------------------------------------------
  // read_ifc: one entry per object
  // ---------------------------------------------------------------------------

  /** Whether a name is a collection or an object (`type(...).__name__`). */
  datatype BlType = CollectionType | ObjectType

  /** `define_bl_type`: the collection kind exactly for the names of `cols`. */
  function DefineBlType(cols: seq<string>, name: string): (r: BlType)
    ensures r == CollectionType <==> name in cols
    ensures r == ObjectType <==> name !in cols
  {
    if name in cols then CollectionType else ObjectType
  }

  /** One `ifc_info` entry. `blType` is absent in the draft that does not compute it,
      `attributes` in the drafts that do not, and `inst` until the builder fills it. */
  datatype Entry = Entry(
    blType: Option<BlType>,
    parent: Option<string>,
    ifcType: Option<string>,
    project: Option<string>,
    site: Option<string>,
    building: Option<string>,
    storey: Option<string>,
    transform: Transform,
    attributes: Option<Attributes>,
    inst: Option<string>)

  /** The eight-field entry of the 2023-05-02 and 2023-05-04 drafts. */
  function EntryFor(s: Snapshot, cols: seq<string>, obj: string): Entry
    requires obj in s.objs
  {
    Entry(Some(DefineBlType(cols, obj)), DefineIfcParent(s, cols, obj), Ident.DefineIfcType(obj),
          Ident.DefineIfcProject(obj), Ident.DefineIfcSite(obj), Ident.DefineIfcBuilding(obj),
          Ident.DefineIfcStorey(obj), s.objs[obj].transform, None, None)
  }

  /** `define_attributes`: the class prefix doubles as name and model, the whole key
      is the alias. `str()` of a missing class is "None". */
  function DefineAttributes(obj: string, time: string): (r: Attributes)
    ensures r.name == r.model && Ident.Sep !in r.name
    ensures r.name == obj || r.name + [Ident.Sep] <= obj
    ensures r.alias == obj && r.category == "0" && r.id == "" && r.remark == ""
    ensures r.time == time && r.noted == "created"
    ensures Ident.IfcPrefix <= obj ==> r.objType == r.name
    ensures !(Ident.IfcPrefix <= obj) ==> r.objType == "None"
  {
    var head := Ident.Head(obj);
    Attributes(Str(Ident.DefineIfcType(obj)), "0", head, obj, "", "", head, time, "created")
  }

  /** The entry of the 2023-05-02 draft that diverts ignored objects. */
  function DivertingEntryFor(s: Snapshot, cols: seq<string>, obj: string, time: string): Entry
    requires obj in s.objs
  {
    Entry(None, DefineIfcParent(s, cols, obj), Ident.DefineIfcType(obj),
          Ident.DefineIfcProject(obj), Ident.DefineIfcSite(obj), Ident.DefineIfcBuilding(obj),
          Ident.DefineIfcStorey(obj), s.objs[obj].transform, Some(DefineAttributes(obj, time)), None)
  }

  /** The loop of `read_ifc` over `objs`, writing one entry per object. */
  function ReadObjects(s: Snapshot, cols: seq<string>, objs: seq<string>, info: Dict<Option<Entry>>): (r: Dict<Option<Entry>>)
    requires forall o :: o in objs ==> o in s.objs
    ensures info.Valid() ==> r.Valid()
    ensures forall k :: r.Get(k) == (if k in objs then Some(Some(EntryFor(s, cols, k))) else info.Get(k))
    ensures info.keys <= r.keys
    decreases |objs|
  {
    if |objs| == 0 then info
    else
      var n := |objs| - 1;
      assert objs == objs[..n] + [objs[n]];
      var before := ReadObjects(s, cols, objs[..n], info);
      before.Put(objs[n], Some(EntryFor(s, cols, objs[n])))
  }

  /** `read_ifc` (2023-05-02, 2023-05-04): the root collection maps to `None`, then
      every object maps to its entry. The root keeps `None` unless an object has the
      root's name. */
  function ReadIfc(s: Snapshot, cols: seq<string>, objs: seq<string>): (r: Dict<Option<Entry>>)
    requires forall o :: o in objs ==> o in s.objs
    ensures r.Valid() && |r.keys| > 0 && r.keys[0] == s.root
    ensures forall k :: r.Get(k).Some? <==> k == s.root || k in objs
    ensures r.Get(s.root) == Some(None) <==> s.root !in objs
    ensures forall o :: o in objs ==> r.Get(o) == Some(Some(EntryFor(s, cols, o)))
  {
    var start := Empty<Option<Entry>>().Put(s.root, None);
    ReadObjects(s, cols, objs, start)
  }

  /** Objects whose parent is one of the ignored collections. */
  predicate Diverted(s: Snapshot, cols: seq<string>, obj: string)
  {
    var p := DefineIfcParent(s, cols, obj);
    p.Some? && p.value in IfcIgnore
  }

  /** The loop of the diverting `read_ifc`: objects whose parent is an ignored
      collection go to `ifc_types`, the rest get an entry. */
  function ReadObjectsDiverting(s: Snapshot, cols: seq<string>, objs: seq<string>, time: string,
                                info: Dict<Option<Entry>>, types: set<string>): (r: (Dict<Option<Entry>>, set<string>))
    requires forall o :: o in objs ==> o in s.objs
    ensures info.Valid() ==> r.0.Valid()
    ensures forall k :: r.0.Get(k) == (if k in objs && !Diverted(s, cols, k) then Some(Some(DivertingEntryFor(s, cols, k, time))) else info.Get(k))
    ensures forall k :: k in r.1 <==> k in types || (k in objs && Diverted(s, cols, k))
    ensures info.keys <= r.0.keys
    decreases |objs|
  {
    if |objs| == 0 then (info, types)
    else
      var n := |objs| - 1;
      var o := objs[n];
      assert objs == objs[..n] + [o];
      var before := ReadObjectsDiverting(s, cols, objs[..n], time, info, types);
      if Diverted(s, cols, o) then (before.0, before.1 + {o})
      else (before.0.Put(o, Some(DivertingEntryFor(s, cols, o, time))), before.1)
  }

  /** `read_ifc` of the draft with an ignore list: root to `None`, then the object
      entries, with the objects of ignored collections set aside in `ifc_types`. */
  function ReadIfcDiverting(s: Snapshot, cols: seq<string>, objs: seq<string>, time: string): (r: (Dict<Option<Entry>>, set<string>))
    requires forall o :: o in objs ==> o in s.objs
    ensures r.0.Valid() && |r.0.keys| > 0 && r.0.keys[0] == s.root
    ensures forall k :: r.0.Get(k).Some? <==> k == s.root || (k in objs && !Diverted(s, cols, k))
    ensures forall o :: o in objs && !Diverted(s, cols, o) ==> r.0.Get(o) == Some(Some(DivertingEntryFor(s, cols, o, time)))
    ensures forall o :: o in r.1 <==> o in objs && Diverted(s, cols, o)
    ensures forall o :: o in r.1 ==> Diverted(s, cols, o)
  {
    ReadObjectsDiverting(s, cols, objs, time, Empty<Option<Entry>>().Put(s.root, None), {})
  }

  // ---------------------------------------------------------------------------
  // sorting (2023-05-04): popping the auxiliary collections and their objects
  // ---------------------------------------------------------------------------

  /** `for n in names: d.pop(n)`: fails with `KeyError` at the first name that is
      absent, which includes a name popped earlier by the same loop. */
  function PopAll(d: Dict<()>, names: seq<string>): (r: Result<Dict<()>>)
    requires d.Valid()
    ensures r.Ok? <==> Distinct(names) && forall n :: n in names ==> d.Get(n).Some?
    ensures r.Ok? ==> r.value.Valid()
    ensures r.Ok? ==> forall k :: r.value.Get(k) == (if k in names then None else d.Get(k))
    ensures r.Err? ==> r.error.KeyError?
    decreases |names|
  {
    if |names| == 0 then Ok(d)
    else
      assert names == [names[0]] + names[1..];
      assert Distinct(names) <==> names[0] !in names[1..] && Distinct(names[1..]) by {
        if names[0] !in names[1..] && Distinct(names[1..]) {
          forall i, j | 0 <= i < j < |names| ensures names[i] != names[j] {
            assert names[j] == names[1..][j - 1];
            if i > 0 { assert names[i] == names[1..][i - 1]; }
          }
        }
        if Distinct(names) {
          forall i, j | 0 <= i < j < |names[1..]| ensures names[1..][i] != names[1..][j] {
            assert names[1..][i] == names[i + 1] && names[1..][j] == names[j + 1];
          }
          forall i | 0 <= i < |names[1..]| ensures names[1..][i] != names[0] {
            assert names[1..][i] == names[i + 1];
          }
        }
      }
      match d.Pop(names[0])
      case Err(e) =>
        assert names[0] in names && d.Get(names[0]).None?;
        Err(e)
      case Ok(d') => PopAll(d', names[1..])
  }

  /** The parser's tables while `sorting` runs: the remaining collections and
      objects, and what was moved aside per auxiliary collection. */
  datatype Sorted = Sorted(
    collections: Dict<()>,
    objects: Dict<()>,
    extraCollections: Dict<string>,
    extraObjects: Dict<seq<string>>)
  {
    ghost predicate Valid()
    {
      collections.Valid() && objects.Valid()
    }
  }

  /** Object `k` lies under one of the auxiliary collections still present in `cols`. */
  predicate UnderExtra(s: Snapshot, cols: Dict<()>, extras: seq<string>, k: string)
  {
    exists e :: e in extras && cols.Get(e).Some? && k in s.AllObjects(e)
  }

  /** The body of the loop of `sorting` for a present auxiliary collection `e`: it
      is popped from the collections and recorded, and every object of its
      `all_objects` is popped from the objects, which raises `KeyError` on an
      object already gone or listed twice. */
  function SortOne(s: Snapshot, st: Sorted, e: string): (r: Result<Sorted>)
    requires st.Valid() && st.collections.Get(e).Some?
    ensures r.Ok? <==> Distinct(s.AllObjects(e)) && forall n :: n in s.AllObjects(e) ==> st.objects.Get(n).Some?
    ensures r.Err? ==> r.error.KeyError?
    ensures r.Ok? ==> r.value.Valid()
    ensures r.Ok? ==> forall k :: r.value.collections.Get(k) == (if k == e then None else st.collections.Get(k))
    ensures r.Ok? ==> forall k :: r.value.objects.Get(k) == (if k in s.AllObjects(e) then None else st.objects.Get(k))
    ensures r.Ok? ==> r.value.extraCollections == st.extraCollections.Put(e, e)
    ensures r.Ok? ==> r.value.extraObjects == st.extraObjects.Put(e, s.AllObjects(e))
  {
    var cols := st.collections.Pop(e).value;
    var objs :- PopAll(st.objects, s.AllObjects(e));
    Ok(Sorted(cols, objs, st.extraCollections.Put(e, e), st.extraObjects.Put(e, s.AllObjects(e))))
  }

  /** The loop of `sorting` over `extras`: each present auxiliary collection is
      handled by `SortOne`, the others are skipped. */
  function SortExtras(s: Snapshot, st: Sorted, extras: seq<string>): (r: Result<Sorted>)
    requires st.Valid() && Distinct(extras)
    ensures r.Ok? ==> r.value.Valid()
    ensures r.Ok? ==> forall k :: r.value.collections.Get(k) == (if k in extras then None else st.collections.Get(k))
    ensures r.Ok? ==> forall k :: r.value.objects.Get(k).Some? <==> st.objects.Get(k).Some? && !UnderExtra(s, st.collections, extras, k)
    ensures r.Ok? ==> forall e :: e in extras && st.collections.Get(e).Some? ==>
                        r.value.extraCollections.Get(e) == Some(e) && r.value.extraObjects.Get(e) == Some(s.AllObjects(e))
    ensures r.Ok? ==> forall e :: !(e in extras && st.collections.Get(e).Some?) ==>
                        r.value.extraCollections.Get(e) == st.extraCollections.Get(e) && r.value.extraObjects.Get(e) == st.extraObjects.Get(e)
    ensures r.Err? ==> r.error.KeyError?
    decreases |extras|
  {
    if |extras| == 0 then Ok(st)
    else
      var e := extras[0];
      DistinctTail(extras);
      if st.collections.Get(e).None? then
        UnderExtraSkip(s, st.collections, extras);
        SortExtras(s, st, extras[1..])
      else
        var st' :- SortOne(s, st, e);
        UnderExtraPop(s, st.collections, st'.collections, extras);
        SortExtras(s, st', extras[1..])
  }

  /** The tail of a list without repeats has none, and misses the head. */
  lemma DistinctTail(xs: seq<string>)
    requires |xs| > 0 && Distinct(xs)
    ensures Distinct(xs[1..]) && xs[0] !in xs[1..]
  {
    forall i, j | 0 <= i < j < |xs[1..]| ensures xs[1..][i] != xs[1..][j] {
      assert xs[1..][i] == xs[i + 1] && xs[1..][j] == xs[j + 1];
    }
    forall i | 0 <= i < |xs[1..]| ensures xs[1..][i] != xs[0] {
      assert xs[1..][i] == xs[i + 1];
    }
  }

  /** An absent first auxiliary collection covers nothing. */
  lemma UnderExtraSkip(s: Snapshot, cols: Dict<()>, extras: seq<string>)
    requires |extras| > 0 && cols.Get(extras[0]).None?
    ensures forall k :: UnderExtra(s, cols, extras, k) <==> UnderExtra(s, cols, extras[1..], k)
  {
    assert extras == [extras[0]] + extras[1..];
  }

  /** Popping the first auxiliary collection moves what it covers out of the rest. */
  lemma UnderExtraPop(s: Snapshot, cols: Dict<()>, cols': Dict<()>, extras: seq<string>)
    requires |extras| > 0 && extras[0] !in extras[1..] && cols.Get(extras[0]).Some?
    requires forall k :: cols'.Get(k) == (if k == extras[0] then None else cols.Get(k))
    ensures forall k :: UnderExtra(s, cols, extras, k) <==> k in s.AllObjects(extras[0]) || UnderExtra(s, cols', extras[1..], k)
  {
    assert extras == [extras[0]] + extras[1..];
    forall k | UnderExtra(s, cols', extras[1..], k) ensures UnderExtra(s, cols, extras, k) {
      var x :| x in extras[1..] && cols'.Get(x).Some? && k in s.AllObjects(x);
      assert x in extras;
    }
  }

  /** `sorting` from the parser's initial tables. */
  function Sorting(s: Snapshot): (r: Result<Sorted>)
    ensures r.Ok? ==> r.value.Valid()
    ensures r.Ok? ==> forall k :: r.value.collections.Get(k).Some? <==> k in s.CollectionNames() && k !in IfcIgnore
    ensures r.Ok? ==> forall k :: r.value.objects.Get(k).Some? <==>
                        k in s.AllObjects(s.root) && !UnderExtra(s, KeysOf(s.CollectionNames()), IfcIgnore, k)
    ensures r.Err? ==> r.error.KeyError?
  {
    assert Distinct(IfcIgnore);
    SortExtras(s, Sorted(KeysOf(s.CollectionNames()), KeysOf(s.AllObjects(s.root)), Empty(), Empty()), IfcIgnore)
  }

  /** Once an object under a still-present auxiliary collection is gone from the
      object table, `sorting` fails with `KeyError`. */
  lemma {:induction false} SortExtrasMissingFails(s: Snapshot, st: Sorted, extras: seq<string>, j: nat, k: string)
    requires st.Valid() && Distinct(extras)
    requires j < |extras| && st.collections.Get(extras[j]).Some?
    requires k in s.AllObjects(extras[j]) && st.objects.Get(k).None?
    ensures SortExtras(s, st, extras).Err?
    decreases |extras|
  {
    var e := extras[0];
    DistinctTail(extras);
    if j > 0 {
      assert extras[1..][j - 1] == extras[j];
      if st.collections.Get(e).None? {
        SortExtrasMissingFails(s, st, extras[1..], j - 1, k);
      } else {
        var next := SortOne(s, st, e);
        if next.Ok? {
          SortExtrasMissingFails(s, next.value, extras[1..], j - 1, k);
        }
      }
    }
  }

  /** Nested or overlapping auxiliary collections make `sorting` raise: an object
      reached through two present auxiliary collections is popped twice. */
  lemma {:induction false} SortExtrasOverlapFails(s: Snapshot, st: Sorted, extras: seq<string>, i: nat, j: nat, k: string)
    requires st.Valid() && Distinct(extras)
    requires i < j < |extras|
    requires st.collections.Get(extras[i]).Some? && st.collections.Get(extras[j]).Some?
    requires k in s.AllObjects(extras[i]) && k in s.AllObjects(extras[j])
    ensures SortExtras(s, st, extras).Err?
    decreases |extras|, 1
  {
    var e := extras[0];
    DistinctTail(extras);
    assert extras[1..][j - 1] == extras[j];
    if i == 0 {
      var next := SortOne(s, st, e);
      if next.Ok? {
        SortExtrasMissingFails(s, next.value, extras[1..], j - 1, k);
      }
    } else {
      assert extras[1..][i - 1] == extras[i];
      if st.collections.Get(e).None? {
        SortExtrasOverlapFails(s, st, extras[1..], i - 1, j - 1, k);
      } else if SortOne(s, st, e).Ok? {
        OverlapAfterOne(s, st, SortOne(s, st, e).value, extras, i, j, k);
      }
    }
  }

  /** The overlap is still there after the first auxiliary collection is handled. */
  lemma {:induction false} OverlapAfterOne(s: Snapshot, st: Sorted, st': Sorted, extras: seq<string>, i: nat, j: nat, k: string)
    requires st.Valid() && Distinct(extras) && 0 < i < j < |extras|
    requires st.collections.Get(extras[0]).Some? && SortOne(s, st, extras[0]) == Ok(st')
    requires st.collections.Get(extras[i]).Some? && st.collections.Get(extras[j]).Some?
    requires k in s.AllObjects(extras[i]) && k in s.AllObjects(extras[j])
    ensures SortExtras(s, st, extras).Err?
    decreases |extras|, 0
  {
    DistinctTail(extras);
    assert extras[1..][i - 1] == extras[i] && extras[1..][j - 1] == extras[j];
    assert extras[i] != extras[0] && extras[j] != extras[0];
    assert st'.collections.Get(extras[i]).Some? && st'.collections.Get(extras[j]).Some?;
    SortExtrasOverlapFails(s, st', extras[1..], i - 1, j - 1, k);
  }

  /** The auxiliary collections present are pairwise disjoint, list no object twice,
      and list only objects still in the table. */
  predicate ExtrasSeparate(s: Snapshot, st: Sorted, extras: seq<string>)
  {
    && (forall i :: 0 <= i < |extras| && st.collections.Get(extras[i]).Some? ==>
          Distinct(s.AllObjects(extras[i])) && forall k :: k in s.AllObjects(extras[i]) ==> st.objects.Get(k).Some?)
    && (forall i, j, k ::
          (0 <= i < j < |extras| && st.collections.Get(extras[i]).Some? && st.collections.Get(extras[j]).Some?
           && k in s.AllObjects(extras[i])) ==> k !in s.AllObjects(extras[j]))
  }

  /** Without overlap `sorting` succeeds. */
  lemma {:induction false} SortExtrasSeparateSucceeds(s: Snapshot, st: Sorted, extras: seq<string>)
    requires st.Valid() && Distinct(extras)
    requires ExtrasSeparate(s, st, extras)
    ensures SortExtras(s, st, extras).Ok?
    decreases |extras|
  {
    if |extras| > 0 {
      var e := extras[0];
      var rest := extras[1..];
      assert forall i :: 0 <= i < |rest| ==> rest[i] == extras[i + 1];
      if st.collections.Get(e).None? {
        SortExtrasSeparateSucceeds(s, st, rest);
      } else {
        var st' := SortOne(s, st, e).value;
        assert ExtrasSeparate(s, st', rest) by {
          forall i, k | 0 <= i < |rest| && st'.collections.Get(rest[i]).Some? && k in s.AllObjects(rest[i])
            ensures st'.objects.Get(k).Some?
          {
            assert k !in s.AllObjects(extras[0]);
          }
        }
        SortExtrasSeparateSucceeds(s, st', rest);
      }
    }
  }

  /** `read_ifc` after `sorting`: the entries range over what `sorting` left. */
  function ParseSorted(s: Snapshot): (r: Result<Dict<Option<Entry>>>)
    requires s.Valid()
    ensures r.Err? <==> Sorting(s).Err?
    ensures r.Ok? ==> forall k :: k in s.AllObjects(s.root) && !UnderExtra(s, KeysOf(s.CollectionNames()), IfcIgnore, k) ==>
                        r.value.Get(k).Some? && r.value.Get(k).value.Some?
    ensures r.Ok? ==> forall k :: r.value.Get(k).Some? <==>
                        k == s.root || (k in s.AllObjects(s.root) && !UnderExtra(s, KeysOf(s.CollectionNames()), IfcIgnore, k))
    ensures r.Ok? ==> (r.value.Get(s.root) == Some(None) <==>
                        !(s.root in s.AllObjects(s.root) && !UnderExtra(s, KeysOf(s.CollectionNames()), IfcIgnore, s.root)))
  {
    match Sorting(s)
    case Err(e) => Err(e)
    case Ok(st) =>
      assert forall o :: o in st.objects.keys ==> o in s.objs by {
        forall o | o in st.objects.keys ensures o in s.objs {
          assert st.objects.Get(o).Some?;
        }
      }
      var info := ReadIfc(s, st.collections.keys, st.objects.keys);
      assert forall k :: st.objects.Get(k).Some? ==> k in st.objects.keys;
      Ok(info)
  }

  // ---------------------------------------------------------------------------
  // define_parent (2023-04-28): the proxy-driven scan
  // ---------------------------------------------------------------------------

  /** The first collection of `cols` that lists `c` among its child collections. */
  function FirstEnclosing(s: Snapshot, cols: seq<string>, c: string): (r: Option<string>)
    ensures r.Some? ==> r.value in cols && c in s.Children(r.value)
    ensures r.None? <==> forall col :: col in cols ==> c !in s.Children(col)
    ensures r.Some? ==> exists i :: 0 <= i < |cols| && cols[i] == r.value && forall j :: 0 <= j < i ==> c !in s.Children(cols[j])
  {
    if |cols| == 0 then None
    else if c in s.Children(cols[0]) then Some(cols[0])
    else
      var t := FirstEnclosing(s, cols[1..], c);
      assert cols == [cols[0]] + cols[1..];
      if t.Some? then
        ghost var i :| 0 <= i < |cols[1..]| && cols[1..][i] == t.value && forall j :: 0 <= j < i ==> c !in s.Children(cols[1..][j]);
        assert forall j :: 0 <= j < i + 1 ==> c !in s.Children(cols[j]) by {
          forall j | 0 <= j < i + 1 ensures c !in s.Children(cols[j]) {
            if j > 0 { assert cols[j] == cols[1..][j - 1]; }
          }
        }
        t
      else t
  }

  /** Proxy collection `p` assigns a parent to `k`: `k` is one of `p`'s objects,
      and either a different name or `p`'s own proxy inside some collection. */
  predicate WritesTo(s: Snapshot, cols: seq<string>, p: string, k: string)
  {
    p in cols && k in s.Objects(p) && (k != p || FirstEnclosing(s, cols, p).Some?)
  }

  /** The parent `p` assigns to `k`: the collection itself, or for its own proxy the
      first collection holding `p` as a child. */
  function WriteValue(s: Snapshot, cols: seq<string>, p: string, k: string): Option<string>
  {
    if k == p then FirstEnclosing(s, cols, p) else Some(p)
  }

  /** The inner loop over `p`'s objects. */
  function ScanMembers(s: Snapshot, cols: seq<string>, p: string, members: seq<string>, tree: Dict<Option<string>>): (r: Dict<Option<string>>)
    ensures tree.Valid() ==> r.Valid()
    ensures tree.keys <= r.keys
    ensures forall k :: r.Get(k) == (if k in members && (k != p || FirstEnclosing(s, cols, p).Some?) then Some(WriteValue(s, cols, p, k)) else tree.Get(k))
    decreases |members|
  {
    if |members| == 0 then tree
    else
      var n := |members| - 1;
      var k := members[n];
      assert members == members[..n] + [k];
      var before := ScanMembers(s, cols, p, members[..n], tree);
      if k == p then
        match FirstEnclosing(s, cols, p)
        case None => before
        case Some(c) => before.Put(k, Some(c))
      else before.Put(k, Some(p))
  }

  /** The index of the last name in `objs` that assigns a parent to `k`. */
  function LastWriter(s: Snapshot, cols: seq<string>, objs: seq<string>, k: string): (r: Option<nat>)
    ensures r.Some? ==> r.value < |objs| && WritesTo(s, cols, objs[r.value], k)
    ensures r.Some? ==> forall j :: r.value < j < |objs| ==> !WritesTo(s, cols, objs[j], k)
    ensures r.None? <==> forall j :: 0 <= j < |objs| ==> !WritesTo(s, cols, objs[j], k)
    decreases |objs|
  {
    if |objs| == 0 then None
    else
      var n := |objs| - 1;
      if WritesTo(s, cols, objs[n], k) then Some(n)
      else
        var t := LastWriter(s, cols, objs[..n], k);
        assert forall j :: 0 <= j < n ==> objs[..n][j] == objs[j];
        t
  }

  /** The outer loop over all objects: only those named like a collection scan. */
  function ScanProxies(s: Snapshot, cols: seq<string>, objs: seq<string>, tree: Dict<Option<string>>): (r: Dict<Option<string>>)
    ensures tree.Valid() ==> r.Valid()
    ensures tree.keys <= r.keys
    ensures forall k :: LastWriter(s, cols, objs, k).None? ==> r.Get(k) == tree.Get(k)
    ensures forall k :: LastWriter(s, cols, objs, k).Some? ==>
              r.Get(k) == Some(WriteValue(s, cols, objs[LastWriter(s, cols, objs, k).value], k))
    decreases |objs|
  {
    if |objs| == 0 then tree
    else
      var n := |objs| - 1;
      var p := objs[n];
      assert forall j :: 0 <= j < n ==> objs[..n][j] == objs[j];
      var before := ScanProxies(s, cols, objs[..n], tree);
      if p in cols then ScanMembers(s, cols, p, s.Objects(p), before) else before
  }

  /** `v` is a parent `define_parent` may write for `k`: a collection holding `k`,
      or, for a proxy, the first collection among `cols` enclosing it. */
  predicate ParentFits(s: Snapshot, cols: seq<string>, k: string, v: string)
  {
    (k in s.Objects(v) && k != v) || (k in s.Objects(k) && k in s.Children(v) && FirstEnclosing(s, cols, k) == Some(v))
  }

  /** `define_parent` / `define_ifc_tree` / `define_inherit`: the root maps to `None`;
      every object of a proxy collection maps to that collection, and a proxy
      itself to the first collection holding it; when several proxies claim the
      same name, the last one in object order wins. */
  function DefineParent(s: Snapshot): (r: Dict<Option<string>>)
    ensures r.Valid() && |r.keys| > 0 && r.keys[0] == s.root
    ensures forall k :: r.Get(k).Some? <==>
              k == s.root || exists p :: p in s.AllObjects(s.root) && WritesTo(s, s.CollectionNames(), p, k)
    ensures forall k, v :: r.Get(k) == Some(Some(v)) ==> ParentFits(s, s.CollectionNames(), k, v)
    ensures forall k, p ::
              (p in s.AllObjects(s.root) && WritesTo(s, s.CollectionNames(), p, k)
               && (forall q :: q in s.AllObjects(s.root) && WritesTo(s, s.CollectionNames(), q, k) ==> q == p)) ==>
              r.Get(k) == Some(WriteValue(s, s.CollectionNames(), p, k))
    ensures forall k :: LastWriter(s, s.CollectionNames(), s.AllObjects(s.root), k).Some? ==>
              r.Get(k) == Some(WriteValue(s, s.CollectionNames(),
                                          s.AllObjects(s.root)[LastWriter(s, s.CollectionNames(), s.AllObjects(s.root), k).value], k))
    ensures (forall p :: p in s.AllObjects(s.root) ==> !WritesTo(s, s.CollectionNames(), p, s.root)) ==>
              r.Get(s.root) == Some(None)
  {
    var start := Empty<Option<string>>().Put(s.root, None);
    var r := ScanProxies(s, s.CollectionNames(), s.AllObjects(s.root), start);
    DefineParentKeys(s, s.CollectionNames(), s.AllObjects(s.root), start, r);
    DefineParentDomain(s, s.CollectionNames(), s.AllObjects(s.root), start, r);
    DefineParentValues(s, s.CollectionNames(), s.AllObjects(s.root), start, r);
    DefineParentUnique(s, s.CollectionNames(), s.AllObjects(s.root), start, r);
    DefineParentRoot(s, s.CollectionNames(), s.AllObjects(s.root), start, r);
    r
  }

  /** The root keeps its `None` unless some proxy writes a parent for it. */
  lemma DefineParentRoot(s: Snapshot, cols: seq<string>, objs: seq<string>, start: Dict<Option<string>>, r: Dict<Option<string>>)
    requires start == Empty<Option<string>>().Put(s.root, None)
    requires r == ScanProxies(s, cols, objs, start)
    ensures (forall p :: p in objs ==> !WritesTo(s, cols, p, s.root)) ==> r.Get(s.root) == Some(None)
  {
    if forall p :: p in objs ==> !WritesTo(s, cols, p, s.root) {
      assert forall j :: 0 <= j < |objs| ==> objs[j] in objs;
      assert LastWriter(s, cols, objs, s.root).None?;
    }
  }

  /** The root is set first and keeps its place. */
  lemma DefineParentKeys(s: Snapshot, cols: seq<string>, objs: seq<string>, start: Dict<Option<string>>, r: Dict<Option<string>>)
    requires start == Empty<Option<string>>().Put(s.root, None)
    requires r == ScanProxies(s, cols, objs, start)
    ensures r.Valid() && |r.keys| > 0 && r.keys[0] == s.root
  {
    assert start.keys == [s.root];
  }

  /** A name is a key exactly when it is the root or some proxy writes it. */
  lemma DefineParentDomain(s: Snapshot, cols: seq<string>, objs: seq<string>, start: Dict<Option<string>>, r: Dict<Option<string>>)
    requires start == Empty<Option<string>>().Put(s.root, None)
    requires r == ScanProxies(s, cols, objs, start)
    ensures forall k :: r.Get(k).Some? <==> k == s.root || exists p :: p in objs && WritesTo(s, cols, p, k)
  {
    forall k ensures r.Get(k).Some? <==> k == s.root || exists p :: p in objs && WritesTo(s, cols, p, k) {
      if LastWriter(s, cols, objs, k).Some? {
        assert objs[LastWriter(s, cols, objs, k).value] in objs;
      } else if k != s.root {
        assert start.Get(k) == None;
      }
    }
  }

  /** Every parent written is the collection holding the name, or, for a proxy,
      the first collection enclosing it. */
  lemma DefineParentValues(s: Snapshot, cols: seq<string>, objs: seq<string>, start: Dict<Option<string>>, r: Dict<Option<string>>)
    requires start == Empty<Option<string>>().Put(s.root, None)
    requires r == ScanProxies(s, cols, objs, start)
    ensures forall k, v :: r.Get(k) == Some(Some(v)) ==> ParentFits(s, cols, k, v)
  {
    forall k, v | r.Get(k) == Some(Some(v))
      ensures ParentFits(s, cols, k, v)
    {
      if LastWriter(s, cols, objs, k).None? {
        assert false;
      }
    }
  }

  /** A name only one proxy writes holds what that proxy writes. */
  lemma DefineParentUnique(s: Snapshot, cols: seq<string>, objs: seq<string>, start: Dict<Option<string>>, r: Dict<Option<string>>)
    requires start == Empty<Option<string>>().Put(s.root, None)
    requires r == ScanProxies(s, cols, objs, start)
    ensures forall k, p ::
              (p in objs && WritesTo(s, cols, p, k) && (forall q :: q in objs && WritesTo(s, cols, q, k) ==> q == p)) ==>
              r.Get(k) == Some(WriteValue(s, cols, p, k))
  {
    forall k, p | p in objs && WritesTo(s, cols, p, k) && (forall q :: q in objs && WritesTo(s, cols, q, k) ==> q == p)
      ensures r.Get(k) == Some(WriteValue(s, cols, p, k))
    {
      var i :| 0 <= i < |objs| && objs[i] == p;
      assert LastWriter(s, cols, objs, k).Some?;
      assert objs[LastWriter(s, cols, objs, k).value] in objs;
    }
  }

  /** `define_type` / `define_types`: on a non-empty tree, every key is typed
      "collection" or "object"; an empty tree leaves the table as it was. */
  function DefineType(tree: Dict<Option<string>>, cols: seq<string>, prior: Dict<string>): (r: Dict<string>)
    ensures |tree.keys| == 0 ==> r == prior
    ensures forall k :: k in tree.keys ==> r.Get(k) == Some(if k in cols then "collection" else "object")
    ensures forall k :: k !in tree.keys ==> r.Get(k) == prior.Get(k)
    ensures prior.Valid() ==> r.Valid()
  {
    TypeKeys(tree.keys, cols, prior)
  }

  function TypeKeys(keys: seq<string>, cols: seq<string>, prior: Dict<string>): (r: Dict<string>)
    ensures |keys| == 0 ==> r == prior
    ensures forall k :: k in keys ==> r.Get(k) == Some(if k in cols then "collection" else "object")
    ensures forall k :: k !in keys ==> r.Get(k) == prior.Get(k)
    ensures prior.Valid() ==> r.Valid()
    decreases |keys|
  {
    if |keys| == 0 then prior
    else
      var n := |keys| - 1;
      assert keys == keys[..n] + [keys[n]];
      TypeKeys(keys[..n], cols, prior).Put(keys[n], if keys[n] in cols then "collection" else "object")
  }
}
