/** The identifier scheme: Blender IFC names such as `IfcBuildingStorey/15FL` carry
    an IFC class before the first "/" and a local name after it. The drafts read them
    with `startswith` and Python's `str.split("/")`. */
module Ident {
  import opened Common

  const Sep: char := '/'

  const IfcPrefix: string := "Ifc"
  const ProjectPrefix: string := "IfcProject/"
  const SitePrefix: string := "IfcSite/"
  const BuildingPrefix: string := "IfcBuilding/"
  const StoreyPrefix: string := "IfcBuildingStorey/"

  /** Position of the first separator. */
  function FirstSep(s: string): (i: nat)
    requires Sep in s
    ensures i < |s| && s[i] == Sep && Sep !in s[..i]
  {
    if s[0] == Sep then 0 else 1 + FirstSep(s[1..])
  }

  /** "/".join(segments). */
  function Join(segs: seq<string>): string
    requires |segs| >= 1
  {
    if |segs| == 1 then segs[0] else segs[0] + [Sep] + Join(segs[1..])
  }

  /** Python's `s.split("/")`: the pieces between separators, never an empty list,
      and joining them back gives `s`. */
  function Split(s: string): (segs: seq<string>)
    ensures |segs| >= 1
    ensures forall i :: 0 <= i < |segs| ==> Sep !in segs[i]
    ensures Join(segs) == s
    ensures |segs| >= 2 <==> Sep in s
    decreases |s|
  {
    if Sep !in s then [s]
    else
      var i := FirstSep(s);
      assert s == s[..i] + [Sep] + s[i + 1..];
      [s[..i]] + Split(s[i + 1..])
  }

  /** Splitting undoes joining when no segment holds a separator. */
  lemma {:induction false} SplitJoin(segs: seq<string>)
    requires |segs| >= 1
    requires forall i :: 0 <= i < |segs| ==> Sep !in segs[i]
    ensures Split(Join(segs)) == segs
  {
    if |segs| > 1 {
      SplitJoin(segs[1..]);
      var s := Join(segs);
      assert s == segs[0] + [Sep] + Join(segs[1..]);
      assert s[|segs[0]|] == Sep;
      assert s[..|segs[0]|] == segs[0];
      assert Sep in s;
      var i := FirstSep(s);
      assert i == |segs[0]|;
      assert s[i + 1..] == Join(segs[1..]);
    }
  }

  /** `s.split("/")` of a name made of a separator-free head, "/", and a rest. */
  lemma SplitAfterHead(head: string, rest: string)
    requires Sep !in head
    ensures Split(head + [Sep] + rest) == [head] + Split(rest)
  {
    var segs := [head] + Split(rest);
    assert segs[1..] == Split(rest);
    assert Join(segs) == head + [Sep] + rest;
    SplitJoin(segs);
  }

  /** `s.split("/")[0]`: the text before the first separator, or all of `s`. */
  function Head(s: string): (h: string)
    ensures Sep !in h
    ensures h == s || h + [Sep] <= s
  {
    var segs := Split(s);
    if |segs| == 1 then segs[0]
    else
      assert s == segs[0] + [Sep] + Join(segs[1..]);
      segs[0]
  }

  /** `s.split("/")[1]`: the second segment, which raises `IndexError` when `s` has no
      separator. Everything after a second separator is dropped. */
  function Second(s: string): (r: Result<string>)
    ensures r.Err? <==> Sep !in s
    ensures r.Err? ==> r.error == IndexError
    ensures r.Ok? ==> Sep !in r.value && Head(s) + [Sep] + r.value <= s
    ensures r.Ok? ==> Head(s) + [Sep] + r.value == s || Head(s) + [Sep] + r.value + [Sep] <= s
  {
    var segs := Split(s);
    if |segs| < 2 then Err(IndexError)
    else
      assert s == segs[0] + [Sep] + Join(segs[1..]);
      var rest := segs[1..];
      assert rest[0] == segs[1];
      if |rest| == 1 then Ok(segs[1])
      else
        assert Join(rest) == segs[1] + [Sep] + Join(rest[1..]);
        assert s == segs[0] + [Sep] + segs[1] + [Sep] + Join(rest[1..]);
        Ok(segs[1])
  }

  /** `define_ifc_type`: the IFC class of an `Ifc`-prefixed name, else `None`. */
  function DefineIfcType(key: string): (r: Option<string>)
    ensures r.Some? <==> IfcPrefix <= key
    ensures r.Some? ==> IfcPrefix <= r.value && Sep !in r.value
    ensures r.Some? ==> r.value == key || r.value + [Sep] <= key
  {
    if IfcPrefix <= key then
      var h := Head(key);
      assert IfcPrefix <= h by {
        if h != key {
          assert h + [Sep] <= key;
          assert Sep !in IfcPrefix;
          assert IfcPrefix == key[..|IfcPrefix|] == h[..|IfcPrefix|];
        }
      }
      Some(h)
    else None
  }

  /** The local name under a class prefix such as `IfcBuilding/`: `key.split("/")[1]`
      when `key` starts with the prefix, else `None`. The prefix ends in the only
      separator it holds, so the split never raises here. */
  function NameUnder(prefix: string, key: string): (r: Option<string>)
    requires |prefix| >= 1 && prefix[|prefix| - 1] == Sep && Sep !in prefix[..|prefix| - 1]
    ensures r.Some? <==> prefix <= key
    ensures r.Some? ==> Sep !in r.value
    ensures r.Some? ==> prefix + r.value == key || prefix + r.value + [Sep] <= key
  {
    if prefix <= key then
      PrefixThenHead(prefix, key);
      Some(Head(key[|prefix|..]))
    else None
  }

  /** After a prefix, the head of the rest ends the name or is followed by a
      separator. */
  lemma PrefixThenHead(prefix: string, key: string)
    requires prefix <= key
    ensures var h := Head(key[|prefix|..]); prefix + h == key || prefix + h + [Sep] <= key
  {
    var rest := key[|prefix|..];
    assert key == prefix + rest;
    var h := Head(rest);
    if h != rest {
      assert prefix + h + [Sep] == prefix + (h + [Sep]);
      assert (prefix + h + [Sep]) == key[..|prefix| + |h| + 1];
    }
  }

  /** Under a class prefix, `split("/")` gives the class as the head and the local
      name `NameUnder` reads as the second segment. */
  lemma SplitUnderPrefix(prefix: string, key: string)
    requires |prefix| >= 1 && prefix[|prefix| - 1] == Sep && Sep !in prefix[..|prefix| - 1]
    requires prefix <= key
    ensures Head(key) == prefix[..|prefix| - 1]
    ensures Second(key) == Ok(NameUnder(prefix, key).value)
  {
    var head := prefix[..|prefix| - 1];
    var rest := key[|prefix|..];
    assert key == head + [Sep] + rest;
    SplitAfterHead(head, rest);
  }

  /** `define_ifc_project`. */
  function DefineIfcProject(key: string): (r: Option<string>)
    ensures r.Some? <==> ProjectPrefix <= key
    ensures r.Some? ==> Sep !in r.value && (ProjectPrefix + r.value == key || ProjectPrefix + r.value + [Sep] <= key)
  {
    NameUnder(ProjectPrefix, key)
  }

  /** `define_ifc_site`. */
  function DefineIfcSite(key: string): (r: Option<string>)
    ensures r.Some? <==> SitePrefix <= key
    ensures r.Some? ==> Sep !in r.value && (SitePrefix + r.value == key || SitePrefix + r.value + [Sep] <= key)
  {
    NameUnder(SitePrefix, key)
  }

  /** `define_ifc_building`. */
  function DefineIfcBuilding(key: string): (r: Option<string>)
    ensures r.Some? <==> BuildingPrefix <= key
    ensures r.Some? ==> Sep !in r.value && (BuildingPrefix + r.value == key || BuildingPrefix + r.value + [Sep] <= key)
  {
    NameUnder(BuildingPrefix, key)
  }

  /** `define_ifc_storey`. */
  function DefineIfcStorey(key: string): (r: Option<string>)
    ensures r.Some? <==> StoreyPrefix <= key
    ensures r.Some? ==> Sep !in r.value && (StoreyPrefix + r.value == key || StoreyPrefix + r.value + [Sep] <= key)
  {
    NameUnder(StoreyPrefix, key)
  }

  /** A storey name is never a building name: `IfcBuilding/` and `IfcBuildingStorey/`
      part ways at their twelfth character. */
  lemma StoreyIsNotBuilding(key: string)
    requires StoreyPrefix <= key
    ensures DefineIfcBuilding(key) == None
    ensures DefineIfcStorey(key).Some?
  {
    assert key[11] == StoreyPrefix[11] == 'S';
    assert BuildingPrefix[11] == Sep;
  }
}
