/** The XML side of the exporter: ElementTree elements as immutable values, the
    pre-order walk `iter_with_path` that pairs every element with a slash-separated
    name path, and addresses that stand in for element references. */
module XmlTree {
  import opened Common
  import opened Dicts

  /** An ElementTree element: tag, insertion-ordered attributes, ordered children. */
  datatype Element = Element(tag: string, attrs: Dict<string>, children: seq<Element>)

  /** Where an element sits: the child indices on the way down from the root. An
      element reference held by the drafts becomes its address, which appending
      children anywhere never changes. */
  type Address = seq<nat>

  const ObjectTag: string := "Object"
  const RootTag: string := "Root"
  const NameAttr: string := "name"

  /** One item of `iter_with_path`: the element, its path, and where it sits. */
  datatype Hit = Hit(node: Element, path: string, addr: Address)

  /** `el.set(name, value)` (`add_attribute` in the 2023-04-25 draft). */
  function SetAttribute(e: Element, name: string, value: string): (r: Element)
    ensures r.tag == e.tag && r.children == e.children
    ensures r.attrs.Get(name) == Some(value)
    ensures forall k :: k != name ==> r.attrs.Get(k) == e.attrs.Get(k)
    ensures e.attrs.Valid() ==> r.attrs.Valid()
  {
    Element(e.tag, e.attrs.Put(name, value), e.children)
  }

  /** `Et.SubElement(e, ...)` on an element value: `c` becomes the last child. */
  function AddChild(e: Element, c: Element): (r: Element)
    ensures r.tag == e.tag && r.attrs == e.attrs
    ensures |r.children| == |e.children| + 1 && r.children[|e.children|] == c
    ensures r.children[..|e.children|] == e.children
  {
    Element(e.tag, e.attrs, e.children + [c])
  }

  // ---------------------------------------------------------------------------
  // Paths
  // ---------------------------------------------------------------------------

  /** `f'{root_path}/{child.get("name")}'`: an absent name prints as "None". */
  function ChildPath(path: string, c: Element): (r: string)
    ensures r == path + "/" + Str(c.attrs.Get(NameAttr))
    ensures c.attrs.Get(NameAttr).None? ==> r == path + "/None"
  {
    path + "/" + Str(c.attrs.Get(NameAttr))
  }

  /** The tag filter of `iter_with_path`: no tag and "*" both let every element through. */
  predicate TagMatches(tag: Option<string>, e: Element)
  {
    tag.None? || tag.value == "*" || e.tag == tag.value
  }

  // ---------------------------------------------------------------------------
  // Addresses
  // ---------------------------------------------------------------------------

  predicate ValidAddr(e: Element, a: Address)
    decreases |a|
  {
    |a| == 0 || (a[0] < |e.children| && ValidAddr(e.children[a[0]], a[1..]))
  }

  function NodeAt(e: Element, a: Address): Element
    requires ValidAddr(e, a)
    decreases |a|
  {
    if |a| == 0 then e else NodeAt(e.children[a[0]], a[1..])
  }

  /** The path `iter_with_path` gives the element at `a` when `e` has path `path`. */
  function PathAt(e: Element, a: Address, path: string): string
    requires ValidAddr(e, a)
    decreases |a|
  {
    if |a| == 0 then path else PathAt(e.children[a[0]], a[1..], ChildPath(path, e.children[a[0]]))
  }

  /** `Et.SubElement(parent, ...)` where `parent` is the element at `a`. */
  function AppendAt(e: Element, a: Address, n: Element): (r: Element)
    requires ValidAddr(e, a)
    ensures r.tag == e.tag && r.attrs == e.attrs
    ensures |r.children| == |e.children| + (if |a| == 0 then 1 else 0)
    decreases |a|
  {
    if |a| == 0 then AddChild(e, n)
    else e.(children := e.children[a[0] := AppendAt(e.children[a[0]], a[1..], n)])
  }

  /** The appended element is the parent's new last child, and its path extends the
      parent's path by its own name. */
  lemma {:induction false} AppendAtNew(e: Element, a: Address, n: Element, path: string)
    requires ValidAddr(e, a)
    ensures var b := a + [|NodeAt(e, a).children|];
      && ValidAddr(AppendAt(e, a, n), b)
      && NodeAt(AppendAt(e, a, n), b) == n
      && PathAt(AppendAt(e, a, n), b, path) == ChildPath(PathAt(e, a, path), n)
    decreases |a|
  {
    var b := a + [|NodeAt(e, a).children|];
    var r := AppendAt(e, a, n);
    if |a| == 0 {
      assert b == [|e.children|] && b[1..] == [];
    } else {
      var i := a[0];
      var c := e.children[i];
      AppendAtNew(c, a[1..], n, ChildPath(path, c));
      assert b[0] == i && b[1..] == a[1..] + [|NodeAt(c, a[1..]).children|];
      assert r.children[i] == AppendAt(c, a[1..], n);
      assert ChildPath(path, r.children[i]) == ChildPath(path, c);
    }
  }

  /** Appending keeps every existing address valid, with the same tag, attributes
      and path; a node that is not an ancestor-or-self of the parent is untouched. */
  lemma {:induction false} AppendAtKeeps(e: Element, a: Address, n: Element, b: Address, path: string)
    requires ValidAddr(e, a) && ValidAddr(e, b)
    ensures ValidAddr(AppendAt(e, a, n), b)
    ensures NodeAt(AppendAt(e, a, n), b).tag == NodeAt(e, b).tag
    ensures NodeAt(AppendAt(e, a, n), b).attrs == NodeAt(e, b).attrs
    ensures PathAt(AppendAt(e, a, n), b, path) == PathAt(e, b, path)
    ensures !(b <= a) ==> NodeAt(AppendAt(e, a, n), b) == NodeAt(e, b)
    decreases |b|
  {
    var r := AppendAt(e, a, n);
    if |b| > 0 {
      var j := b[0];
      var c := e.children[j];
      if |a| == 0 {
        assert r.children[j] == c;
        assert !(b <= a);
      } else if j == a[0] {
        AppendAtKeeps(c, a[1..], n, b[1..], ChildPath(path, c));
        assert r.children[j] == AppendAt(c, a[1..], n);
        assert b <= a <==> b[1..] <= a[1..];
      } else {
        assert r.children[j] == c;
        assert !(b <= a);
      }
    }
  }

  /** Appending `n` and then `c` under `n` is appending `n` with `c` already inside. */
  lemma {:induction false} AppendThenUnder(e: Element, a: Address, n: Element, c: Element)
    requires ValidAddr(e, a)
    ensures ValidAddr(AppendAt(e, a, n), a + [|NodeAt(e, a).children|])
    ensures AppendAt(AppendAt(e, a, n), a + [|NodeAt(e, a).children|], c) == AppendAt(e, a, AddChild(n, c))
    decreases |a|
  {
    var b := a + [|NodeAt(e, a).children|];
    AppendAtNew(e, a, n, "");
    if |a| == 0 {
      assert b == [|e.children|] && b[1..] == [];
    } else {
      var i := a[0];
      var ci := e.children[i];
      AppendThenUnder(ci, a[1..], n, c);
      assert b[0] == i && b[1..] == a[1..] + [|NodeAt(ci, a[1..]).children|];
    }
  }

  /** An element with an `Object` somewhere inside does not satisfy `NoObject`. */
  lemma {:induction false} ObjectInside(e: Element, a: Address)
    requires ValidAddr(e, a) && NodeAt(e, a).tag == ObjectTag
    ensures !NoObject(e)
    decreases |a|
  {
    if |a| > 0 {
      ObjectInside(e.children[a[0]], a[1..]);
    }
  }

  // ---------------------------------------------------------------------------
  // iter_with_path
  // ---------------------------------------------------------------------------

  /** `h` names an element of `e` (whose path is `path` and address `at`) by the
      address and path that element really has. */
  ghost predicate Sound(e: Element, path: string, at: Address, h: Hit)
  {
    && |at| <= |h.addr| && h.addr[..|at|] == at
    && ValidAddr(e, h.addr[|at|..])
    && NodeAt(e, h.addr[|at|..]) == h.node
    && PathAt(e, h.addr[|at|..], path) == h.path
  }

  /** What is sound for the `i`-th child is sound for the parent. */
  lemma SoundLift(e: Element, path: string, at: Address, i: nat, h: Hit)
    requires i < |e.children|
    requires Sound(e.children[i], ChildPath(path, e.children[i]), at + [i], h)
    ensures Sound(e, path, at, h) && |h.addr| > |at| && h.addr[|at|] == i
  {
    assert h.addr[..|at| + 1] == at + [i];
    assert h.addr[..|at|] == (at + [i])[..|at|] == at;
    var rel := h.addr[|at|..];
    assert rel[0] == i;
    assert rel[1..] == h.addr[|at| + 1..];
  }

  lemma SoundLiftAll(e: Element, path: string, at: Address, i: nat, hs: seq<Hit>)
    requires i < |e.children|
    requires forall k :: 0 <= k < |hs| ==> Sound(e.children[i], ChildPath(path, e.children[i]), at + [i], hs[k])
    ensures forall k :: 0 <= k < |hs| ==> Sound(e, path, at, hs[k]) && |hs[k].addr| > |at| && hs[k].addr[|at|] == i
  {
    forall k | 0 <= k < |hs|
      ensures Sound(e, path, at, hs[k]) && |hs[k].addr| > |at| && hs[k].addr[|at|] == i
    {
      SoundLift(e, path, at, i, hs[k]);
    }
  }

  /** `iter_with_path(e, tag, path)` with `e` at address `at`: `e` first when it
      passes the filter, then each child's walk in order, the child's path being
      `path` + "/" + its name. */
  function Walk(e: Element, tag: Option<string>, path: string, at: Address): (r: seq<Hit>)
    ensures TagMatches(tag, e) ==> |r| > 0 && r[0] == Hit(e, path, at)
    decreases e, 1, 0
  {
    var kids := WalkChildren(e, tag, path, at, 0);
    if TagMatches(tag, e) then [Hit(e, path, at)] + kids else kids
  }

  /** The walks of `e`'s children from the `i`-th on, concatenated. */
  function WalkChildren(e: Element, tag: Option<string>, path: string, at: Address, i: nat): (r: seq<Hit>)
    requires i <= |e.children|
    decreases e, 0, |e.children| - i
  {
    if i == |e.children| then []
    else
      var c := e.children[i];
      Walk(c, tag, ChildPath(path, c), at + [i]) + WalkChildren(e, tag, path, at, i + 1)
  }

  /** Every item of `hs` is an element of `e` that passes the filter, paired with
      its real path and address. */
  ghost predicate AllSound(e: Element, tag: Option<string>, path: string, at: Address, hs: seq<Hit>)
  {
    forall k :: 0 <= k < |hs| ==> Sound(e, path, at, hs[k]) && TagMatches(tag, hs[k].node)
  }

  /** Every item of the walk is an element of `e` that passes the filter, paired
      with its real path and address. */
  lemma {:induction false} WalkSound(e: Element, tag: Option<string>, path: string, at: Address)
    ensures AllSound(e, tag, path, at, Walk(e, tag, path, at))
    decreases e, 1, 0
  {
    WalkChildrenSound(e, tag, path, at, 0);
    if TagMatches(tag, e) {
      assert at[|at|..] == [];
      assert Sound(e, path, at, Hit(e, path, at));
    }
  }

  lemma {:induction false} WalkChildrenSound(e: Element, tag: Option<string>, path: string, at: Address, i: nat)
    requires i <= |e.children|
    ensures AllSound(e, tag, path, at, WalkChildren(e, tag, path, at, i))
    ensures forall k :: 0 <= k < |WalkChildren(e, tag, path, at, i)| ==>
      |WalkChildren(e, tag, path, at, i)[k].addr| > |at| && WalkChildren(e, tag, path, at, i)[k].addr[|at|] >= i
    decreases e, 0, |e.children| - i
  {
    if i < |e.children| {
      var c := e.children[i];
      var here := Walk(c, tag, ChildPath(path, c), at + [i]);
      var rest := WalkChildren(e, tag, path, at, i + 1);
      WalkSound(c, tag, ChildPath(path, c), at + [i]);
      SoundLiftAll(e, path, at, i, here);
      WalkChildrenSound(e, tag, path, at, i + 1);
      var r := here + rest;
      forall k | 0 <= k < |r|
        ensures Sound(e, path, at, r[k]) && TagMatches(tag, r[k].node) && |r[k].addr| > |at| && r[k].addr[|at|] >= i
      {
        if k >= |here| {
          assert r[k] == rest[k - |here|];
        }
      }
    }
  }

  /** `get_elements_with_paths(root)`: every `Object` with its path from "root",
      or, when there is none, every element tagged `Root`. */
  function GetElementsWithPaths(root: Element): (r: seq<Hit>)
    ensures forall k :: 0 <= k < |r| ==> Sound(root, "root", [], r[k])
    ensures !NoObject(root) ==> forall k :: 0 <= k < |r| ==> r[k].node.tag == ObjectTag
    ensures NoObject(root) && root.tag == RootTag ==> |r| > 0 && r[0] == Hit(root, "root", [])
    ensures !NoObject(root) ==> |r| > 0 && Some(r[|r| - 1]) == LastObject(root, "root", [])
  {
    var objects := Walk(root, Some(ObjectTag), "root", []);
    WalkSound(root, Some(ObjectTag), "root", []);
    WalkSound(root, Some(RootTag), "root", []);
    LastOfWalk(root, "root", []);
    NoObjectIffNone(root, "root", []);
    if |objects| > 0 then objects else Walk(root, Some(RootTag), "root", [])
  }

  /** Without any `Object`, `get_elements_with_paths` falls back to the `Root`
      elements only. */
  lemma RootsWithoutObjects(root: Element)
    requires NoObject(root)
    ensures forall k :: 0 <= k < |GetElementsWithPaths(root)| ==> GetElementsWithPaths(root)[k].node.tag == RootTag
  {
    var objects := Walk(root, Some(ObjectTag), "root", []);
    WalkSound(root, Some(ObjectTag), "root", []);
    WalkSound(root, Some(RootTag), "root", []);
    if |objects| > 0 {
      assert objects[0].addr[0..] == objects[0].addr;
      ObjectInside(root, objects[0].addr);
    }
  }

  /** Every element the filter lets through is walked, with its path and address. */
  lemma {:induction false} WalkComplete(e: Element, tag: Option<string>, path: string, at: Address, rel: Address)
    requires ValidAddr(e, rel) && TagMatches(tag, NodeAt(e, rel))
    ensures Hit(NodeAt(e, rel), PathAt(e, rel, path), at + rel) in Walk(e, tag, path, at)
    decreases |rel|
  {
    if |rel| == 0 {
      assert at + rel == at;
    } else {
      var i := rel[0];
      var c := e.children[i];
      WalkComplete(c, tag, ChildPath(path, c), at + [i], rel[1..]);
      assert at + [i] + rel[1..] == at + rel;
      WalkChildrenContains(e, tag, path, at, 0, i, Hit(NodeAt(e, rel), PathAt(e, rel, path), at + rel));
    }
  }

  lemma {:induction false} WalkChildrenContains(e: Element, tag: Option<string>, path: string, at: Address, i: nat, j: nat, h: Hit)
    requires i <= j < |e.children|
    requires h in Walk(e.children[j], tag, ChildPath(path, e.children[j]), at + [j])
    ensures h in WalkChildren(e, tag, path, at, i)
    decreases j - i
  {
    if i < j {
      WalkChildrenContains(e, tag, path, at, i + 1, j, h);
    }
  }

  // ---------------------------------------------------------------------------
  // The last Object in pre-order
  // ---------------------------------------------------------------------------

  /** No element of `e` is an `Object`. */
  predicate NoObject(e: Element)
    decreases e
  {
    e.tag != ObjectTag && forall i :: 0 <= i < |e.children| ==> NoObject(e.children[i])
  }

  /** The last `Object` of `e` in pre-order, found from the right: the last one among
      the children, else `e` itself. */
  function LastObject(e: Element, path: string, at: Address): (r: Option<Hit>)
    ensures r.Some? ==> r.value.node.tag == ObjectTag
    decreases e, 1, 0
  {
    var c := LastInChildren(e, path, at, 0);
    if c.Some? then c
    else if e.tag == ObjectTag then Some(Hit(e, path, at))
    else None
  }

  /** The last `Object` among the children from the `i`-th on. */
  function LastInChildren(e: Element, path: string, at: Address, i: nat): (r: Option<Hit>)
    requires i <= |e.children|
    ensures r.Some? ==> r.value.node.tag == ObjectTag
    decreases e, 0, |e.children| - i
  {
    if i == |e.children| then None
    else
      var later := LastInChildren(e, path, at, i + 1);
      if later.Some? then later
      else
        var c := e.children[i];
        LastObject(c, ChildPath(path, c), at + [i])
  }

  /** What the search finds is an `Object` of `e` with its real path and address. */
  lemma {:induction false} LastObjectSound(e: Element, path: string, at: Address)
    ensures LastObject(e, path, at).Some? ==> Sound(e, path, at, LastObject(e, path, at).value)
    decreases e, 1, 0
  {
    LastInChildrenSound(e, path, at, 0);
    assert at[|at|..] == [];
  }

  lemma {:induction false} LastInChildrenSound(e: Element, path: string, at: Address, i: nat)
    requires i <= |e.children|
    ensures LastInChildren(e, path, at, i).Some? ==>
      && Sound(e, path, at, LastInChildren(e, path, at, i).value)
      && |LastInChildren(e, path, at, i).value.addr| > |at|
      && LastInChildren(e, path, at, i).value.addr[|at|] >= i
    decreases e, 0, |e.children| - i
  {
    if i < |e.children| {
      LastInChildrenSound(e, path, at, i + 1);
      if LastInChildren(e, path, at, i + 1).None? {
        var c := e.children[i];
        var here := LastObject(c, ChildPath(path, c), at + [i]);
        LastObjectSound(c, ChildPath(path, c), at + [i]);
        if here.Some? {
          SoundLift(e, path, at, i, here.value);
        }
      }
    }
  }

  /** An element holds no `Object` exactly when the search from the right finds none. */
  lemma {:induction false} NoObjectIffNone(e: Element, path: string, at: Address)
    ensures NoObject(e) <==> LastObject(e, path, at).None?
    decreases e, 1, 0
  {
    NoObjectChildrenIffNone(e, path, at, 0);
  }

  lemma {:induction false} NoObjectChildrenIffNone(e: Element, path: string, at: Address, i: nat)
    requires i <= |e.children|
    ensures (forall j :: i <= j < |e.children| ==> NoObject(e.children[j])) <==> LastInChildren(e, path, at, i).None?
    decreases e, 0, |e.children| - i
  {
    if i < |e.children| {
      var c := e.children[i];
      NoObjectChildrenIffNone(e, path, at, i + 1);
      NoObjectIffNone(c, ChildPath(path, c), at + [i]);
    }
  }

  /** A later child that finds an `Object` decides the search from any earlier child. */
  lemma {:induction false} LastInChildrenFrom(e: Element, path: string, at: Address, i: nat, j: nat)
    requires i <= j <= |e.children| && LastInChildren(e, path, at, j).Some?
    ensures LastInChildren(e, path, at, i) == LastInChildren(e, path, at, j)
    decreases j - i
  {
    if i < j {
      LastInChildrenFrom(e, path, at, i + 1, j);
    }
  }

  /** The last item of the `Object` walk is the last `Object` found from the right;
      the walk is empty exactly when there is none. */
  lemma {:induction false} LastOfWalk(e: Element, path: string, at: Address)
    ensures var w := Walk(e, Some(ObjectTag), path, at);
      && (|w| == 0 <==> LastObject(e, path, at).None?)
      && (|w| > 0 ==> w[|w| - 1] == LastObject(e, path, at).value)
    decreases e, 1, 0
  {
    LastOfWalkChildren(e, path, at, 0);
  }

  lemma {:induction false} LastOfWalkChildren(e: Element, path: string, at: Address, i: nat)
    requires i <= |e.children|
    ensures var w := WalkChildren(e, Some(ObjectTag), path, at, i);
      && (|w| == 0 <==> LastInChildren(e, path, at, i).None?)
      && (|w| > 0 ==> w[|w| - 1] == LastInChildren(e, path, at, i).value)
    decreases e, 0, |e.children| - i
  {
    if i < |e.children| {
      var c := e.children[i];
      LastOfWalkChildren(e, path, at, i + 1);
      LastOfWalk(c, ChildPath(path, c), at + [i]);
    }
  }

  // ---------------------------------------------------------------------------
  // The rightmost Object chain
  // ---------------------------------------------------------------------------

  /** No `Object` follows the subtree at `a` in pre-order: at every step down, the
      later siblings hold no `Object`. */
  predicate RightmostChain(e: Element, a: Address)
    requires ValidAddr(e, a)
    decreases |a|
  {
    |a| == 0 ||
    ((forall j :: a[0] < j < |e.children| ==> NoObject(e.children[j])) && RightmostChain(e.children[a[0]], a[1..]))
  }

  /** An `Object` with no `Object` below it, such as the one `add_element` appends. */
  predicate LeafObject(n: Element)
  {
    n.tag == ObjectTag && forall i :: 0 <= i < |n.children| ==> NoObject(n.children[i])
  }

  /** Only the later siblings are searched once they hold no `Object`. */
  lemma LastInChildrenAt(e: Element, path: string, at: Address, i: nat)
    requires i < |e.children|
    requires forall j :: i < j < |e.children| ==> NoObject(e.children[j])
    ensures LastInChildren(e, path, at, i) == LastObject(e.children[i], ChildPath(path, e.children[i]), at + [i])
  {
    NoObjectChildrenIffNone(e, path, at, i + 1);
  }

  /** Appended on the rightmost chain, the new element is the last `Object`. */
  lemma {:induction false} AppendOnChain(e: Element, a: Address, n: Element, path: string, at: Address)
    requires ValidAddr(e, a) && RightmostChain(e, a) && LeafObject(n)
    ensures LastObject(AppendAt(e, a, n), path, at)
      == Some(Hit(n, ChildPath(PathAt(e, a, path), n), at + a + [|NodeAt(e, a).children|]))
    decreases |a|
  {
    var r := AppendAt(e, a, n);
    if |a| == 0 {
      var k := |e.children|;
      assert r.children[k] == n;
      NoObjectChildrenIffNone(n, ChildPath(path, n), at + [k], 0);
      LastInChildrenAt(r, path, at, k);
      LastInChildrenFrom(r, path, at, 0, k);
      assert at + a + [k] == at + [k];
    } else {
      var i := a[0];
      var c := e.children[i];
      forall j | i < j < |r.children| ensures NoObject(r.children[j]) {
        assert r.children[j] == e.children[j];
      }
      assert r.children[i] == AppendAt(c, a[1..], n);
      assert ChildPath(path, r.children[i]) == ChildPath(path, c);
      LastInChildrenAt(r, path, at, i);
      AppendOnChain(c, a[1..], n, ChildPath(path, c), at + [i]);
      LastInChildrenFrom(r, path, at, 0, i);
      assert at + [i] + a[1..] == at + a;
    }
  }

  /** A later sibling holding an `Object` outranks everything under the `i`-th child. */
  lemma AppendBeforeLaterObject(e: Element, a: Address, n: Element, path: string, at: Address, j: nat)
    requires ValidAddr(e, a) && |a| > 0 && a[0] < j < |e.children| && !NoObject(e.children[j])
    ensures LastObject(AppendAt(e, a, n), path, at).Some?
    ensures |LastObject(AppendAt(e, a, n), path, at).value.addr| > |at|
    ensures LastObject(AppendAt(e, a, n), path, at).value.addr[|at|] > a[0]
  {
    var r := AppendAt(e, a, n);
    assert r.children[j] == e.children[j];
    NoObjectChildrenIffNone(r, path, at, a[0] + 1);
    LastInChildrenSound(r, path, at, a[0] + 1);
    LastInChildrenFrom(r, path, at, 0, a[0] + 1);
  }

  /** Appended off the rightmost chain, the last `Object` is some other element. */
  lemma {:induction false} AppendOffChain(e: Element, a: Address, n: Element, path: string, at: Address)
    requires ValidAddr(e, a) && !RightmostChain(e, a)
    ensures LastObject(AppendAt(e, a, n), path, at).Some?
    ensures LastObject(AppendAt(e, a, n), path, at).value.addr != at + a + [|NodeAt(e, a).children|]
    decreases |a|, 1
  {
    var i := a[0];
    var target := at + a + [|NodeAt(e, a).children|];
    assert target[|at|] == i;
    if j :| i < j < |e.children| && !NoObject(e.children[j]) {
      AppendBeforeLaterObject(e, a, n, path, at, j);
    } else {
      AppendUnderChild(e, a, n, path, at);
    }
  }

  /** Off the chain below the `i`-th child, with nothing after that child. */
  lemma {:induction false} AppendUnderChild(e: Element, a: Address, n: Element, path: string, at: Address)
    requires ValidAddr(e, a) && |a| > 0 && !RightmostChain(e.children[a[0]], a[1..])
    requires forall j :: a[0] < j < |e.children| ==> NoObject(e.children[j])
    ensures LastObject(AppendAt(e, a, n), path, at).Some?
    ensures LastObject(AppendAt(e, a, n), path, at).value.addr != at + a + [|NodeAt(e, a).children|]
    decreases |a|, 0
  {
    var r := AppendAt(e, a, n);
    var i := a[0];
    var c := e.children[i];
    forall j | i < j < |r.children| ensures NoObject(r.children[j]) {
      assert r.children[j] == e.children[j];
    }
    assert r.children[i] == AppendAt(c, a[1..], n);
    assert ChildPath(path, r.children[i]) == ChildPath(path, c);
    LastInChildrenAt(r, path, at, i);
    AppendOffChain(c, a[1..], n, ChildPath(path, c), at + [i]);
    assert at + [i] + a[1..] == at + a;
    LastInChildrenFrom(r, path, at, 0, i);
  }

  /** The search from the `i`-th child sees only the children from there on. */
  lemma {:induction false} LastInChildrenSameTail(e: Element, f: Element, path: string, at: Address, i: nat)
    requires i <= |e.children| == |f.children|
    requires forall m :: i <= m < |e.children| ==> e.children[m] == f.children[m]
    ensures LastInChildren(e, path, at, i) == LastInChildren(f, path, at, i)
    decreases |e.children| - i
  {
    if i < |e.children| {
      LastInChildrenSameTail(e, f, path, at, i + 1);
    }
  }

  /** Appended off the rightmost chain, the new element changes nothing about which
      `Object` is last: it is the one that was last before. */
  lemma {:induction false} AppendOffChainKeepsLast(e: Element, a: Address, n: Element, path: string, at: Address)
    requires ValidAddr(e, a) && !RightmostChain(e, a)
    ensures LastObject(AppendAt(e, a, n), path, at) == LastObject(e, path, at)
    decreases |a|
  {
    var r := AppendAt(e, a, n);
    var i := a[0];
    var c := e.children[i];
    assert r.children[i] == AppendAt(c, a[1..], n);
    forall m | 0 <= m < |e.children| && m != i ensures r.children[m] == e.children[m] {
    }
    if j :| i < j < |e.children| && !NoObject(e.children[j]) {
      NoObjectChildrenIffNone(e, path, at, i + 1);
      LastInChildrenSameTail(r, e, path, at, i + 1);
      LastInChildrenFrom(e, path, at, 0, i + 1);
      LastInChildrenFrom(r, path, at, 0, i + 1);
    } else {
      AppendOffChainKeepsLast(c, a[1..], n, ChildPath(path, c), at + [i]);
      AppendOffChain(c, a[1..], n, ChildPath(path, c), at + [i]);
      assert ChildPath(path, r.children[i]) == ChildPath(path, c);
      LastInChildrenAt(e, path, at, i);
      LastInChildrenAt(r, path, at, i);
      LastInChildrenFrom(e, path, at, 0, i);
      LastInChildrenFrom(r, path, at, 0, i);
    }
  }

  /** The new element is the last `Object` in pre-order if and only if its parent
      lies on the rightmost `Object` chain. */
  lemma AppendIsLastIff(e: Element, a: Address, n: Element, path: string, at: Address)
    requires ValidAddr(e, a) && LeafObject(n)
    ensures LastObject(AppendAt(e, a, n), path, at)
      == Some(Hit(n, ChildPath(PathAt(e, a, path), n), at + a + [|NodeAt(e, a).children|]))
      <==> RightmostChain(e, a)
  {
    if RightmostChain(e, a) {
      AppendOnChain(e, a, n, path, at);
    } else {
      AppendOffChain(e, a, n, path, at);
    }
  }

  /** Seen from the root: the last `Object` after the append has the new
      element's path and address exactly when the parent is on the rightmost chain. */
  lemma AppendLastIff(e: Element, a: Address, n: Element, path: string)
    requires ValidAddr(e, a) && LeafObject(n)
    ensures LastObject(AppendAt(e, a, n), path, []).Some?
    ensures var last := LastObject(AppendAt(e, a, n), path, []).value;
      (last.path == ChildPath(PathAt(e, a, path), n) && last.addr == a + [|NodeAt(e, a).children|])
      <==> RightmostChain(e, a)
  {
    var r := AppendAt(e, a, n);
    var b := a + [|NodeAt(e, a).children|];
    AppendAtNew(e, a, n, path);
    ObjectInside(r, b);
    NoObjectIffNone(r, path, []);
    LastObjectSound(r, path, []);
    var last := LastObject(r, path, []).value;
    assert last.addr[0..] == last.addr;
    assert [] + a + [|NodeAt(e, a).children|] == b;
    AppendIsLastIff(e, a, n, path, []);
  }
}
