/** Python's insertion-ordered `dict` with string keys. `keys` keeps the insertion
    order Python iterates in; `vals` holds the mapping. Both the ElementTree attribute
    store and the parser's info tables are dicts of this kind. */
module Dicts {
  import opened Common

  datatype Dict<V> = Dict(keys: seq<string>, vals: map<string, V>) {

    /** The representation invariant: every key is listed exactly once, in order. */
    ghost predicate Valid()
    {
      && (forall i, j :: 0 <= i < j < |keys| ==> keys[i] != keys[j])
      && (forall k :: k in vals <==> k in keys)
    }

    /** `d.get(k)`. */
    function Get(k: string): Option<V>
    {
      if k in vals then Some(vals[k]) else None
    }

    /** `d[k] = v`: an existing key keeps its place, a new one goes last. */
    function Put(k: string, v: V): (r: Dict<V>)
      ensures r.Get(k) == Some(v)
      ensures forall k' :: k' != k ==> r.Get(k') == Get(k')
      ensures k in vals ==> r.keys == keys
      ensures k !in vals ==> r.keys == keys + [k]
      ensures Valid() ==> r.Valid()
    {
      Dict(if k in vals then keys else keys + [k], vals[k := v])
    }

    /** `d.pop(k)` without its value: absent keys raise `KeyError`. */
    function Pop(k: string): (r: Result<Dict<V>>)
      ensures r.Err? <==> k !in vals
      ensures r.Err? ==> r.error == KeyError(k)
      ensures r.Ok? ==> r.value.Get(k) == None
      ensures r.Ok? ==> forall k' :: k' != k ==> r.value.Get(k') == Get(k')
      ensures r.Ok? && Valid() ==> r.value.Valid() && |r.value.keys| == |keys| - 1
    {
      if k !in vals then Err(KeyError(k))
      else
        var ks := Without(keys, k);
        WithoutFacts(keys, k);
        Ok(Dict(ks, vals - {k}))
    }
  }

  /** The empty dict `{}`. */
  function Empty<V>(): (r: Dict<V>)
    ensures r.Valid()
    ensures forall k :: r.Get(k) == None
  {
    Dict([], map[])
  }

  /** `ks` with every occurrence of `k` dropped, order kept. */
  function Without(ks: seq<string>, k: string): seq<string>
  {
    if |ks| == 0 then []
    else if ks[0] == k then Without(ks[1..], k)
    else [ks[0]] + Without(ks[1..], k)
  }

  lemma {:induction false} WithoutFacts(ks: seq<string>, k: string)
    ensures forall x :: x in Without(ks, k) <==> x in ks && x != k
    ensures (forall i, j :: 0 <= i < j < |ks| ==> ks[i] != ks[j]) ==>
              && (forall i, j :: 0 <= i < j < |Without(ks, k)| ==> Without(ks, k)[i] != Without(ks, k)[j])
              && |Without(ks, k)| == |ks| - (if k in ks then 1 else 0)
  {
    if |ks| > 0 {
      WithoutFacts(ks[1..], k);
      if (forall i, j :: 0 <= i < j < |ks| ==> ks[i] != ks[j]) {
        assert forall i, j :: 0 <= i < j < |ks[1..]| ==> ks[1..][i] != ks[1..][j] by {
          forall i, j | 0 <= i < j < |ks[1..]| ensures ks[1..][i] != ks[1..][j] {
            assert ks[1..][i] == ks[i + 1] && ks[1..][j] == ks[j + 1];
          }
        }
        assert ks[0] !in ks[1..] by {
          forall i | 0 <= i < |ks[1..]| ensures ks[1..][i] != ks[0] {
            assert ks[1..][i] == ks[i + 1];
          }
        }
        assert k in ks <==> k == ks[0] || k in ks[1..] by {
          assert ks == [ks[0]] + ks[1..];
        }
      }
    }
  }

  /** The keys of a dict built by inserting `xs` in order: `{x: ... for x in xs}`.
      A repeated name keeps its first place. */
  function KeysOf(xs: seq<string>): (r: Dict<()>)
    ensures r.Valid()
    ensures forall x :: r.Get(x).Some? <==> x in xs
    decreases |xs|
  {
    if |xs| == 0 then Empty()
    else KeysOf(xs[..|xs| - 1]).Put(xs[|xs| - 1], ())
  }

  /** No name occurs twice. */
  predicate Distinct(xs: seq<string>)
  {
    forall i, j :: 0 <= i < j < |xs| ==> xs[i] != xs[j]
  }

  /** The keys of a pair list. */
  function Firsts<V>(pairs: seq<(string, V)>): (r: seq<string>)
    ensures |r| == |pairs| && forall i :: 0 <= i < |pairs| ==> r[i] == pairs[i].0
  {
    seq(|pairs|, i requires 0 <= i < |pairs| => pairs[i].0)
  }

  /** `d[k] = v` for each pair in turn. */
  function PutAll<V>(d: Dict<V>, pairs: seq<(string, V)>): (r: Dict<V>)
    ensures d.Valid() ==> r.Valid()
    ensures forall k :: k !in Firsts(pairs) ==> r.Get(k) == d.Get(k)
    decreases |pairs|
  {
    if |pairs| == 0 then d
    else
      var n := |pairs| - 1;
      assert Firsts(pairs) == Firsts(pairs[..n]) + [pairs[n].0];
      PutAll(d, pairs[..n]).Put(pairs[n].0, pairs[n].1)
  }

  /** Setting one more pair sets it after the others. */
  lemma PutAllSnoc<V>(d: Dict<V>, pairs: seq<(string, V)>, x: (string, V))
    ensures PutAll(d, pairs + [x]) == PutAll(d, pairs).Put(x.0, x.1)
  {
    assert (pairs + [x])[..|pairs|] == pairs;
  }

  /** With distinct keys every key ends up holding its own value. */
  lemma {:induction false} PutAllGet<V>(d: Dict<V>, pairs: seq<(string, V)>)
    requires Distinct(Firsts(pairs))
    ensures forall i :: 0 <= i < |pairs| ==> PutAll(d, pairs).Get(pairs[i].0) == Some(pairs[i].1)
    decreases |pairs|
  {
    if |pairs| > 0 {
      var n := |pairs| - 1;
      assert Firsts(pairs) == Firsts(pairs[..n]) + [pairs[n].0];
      assert Distinct(Firsts(pairs[..n])) by {
        forall i, j | 0 <= i < j < |pairs[..n]| ensures Firsts(pairs[..n])[i] != Firsts(pairs[..n])[j] {
          assert Firsts(pairs)[i] != Firsts(pairs)[j];
        }
      }
      PutAllGet(d, pairs[..n]);
      forall i | 0 <= i < n ensures pairs[i].0 != pairs[n].0 {
        assert Firsts(pairs)[i] != Firsts(pairs)[n];
      }
    }
  }

  /** With distinct keys that are all new, the keys are appended in order. */
  lemma {:induction false} PutAllFreshKeys<V>(d: Dict<V>, pairs: seq<(string, V)>)
    requires Distinct(Firsts(pairs))
    ensures d.Valid() && (forall k :: k in Firsts(pairs) ==> k !in d.keys) ==>
              PutAll(d, pairs).keys == d.keys + Firsts(pairs)
    decreases |pairs|
  {
    if |pairs| > 0 && d.Valid() && (forall k :: k in Firsts(pairs) ==> k !in d.keys) {
      var n := |pairs| - 1;
      assert Firsts(pairs) == Firsts(pairs[..n]) + [pairs[n].0];
      assert Distinct(Firsts(pairs[..n])) by {
        forall i, j | 0 <= i < j < |pairs[..n]| ensures Firsts(pairs[..n])[i] != Firsts(pairs[..n])[j] {
          assert Firsts(pairs)[i] != Firsts(pairs)[j];
        }
      }
      PutAllFreshKeys(d, pairs[..n]);
      assert pairs[n].0 !in Firsts(pairs[..n]) by {
        forall i | 0 <= i < n ensures Firsts(pairs[..n])[i] != pairs[n].0 {
          assert Firsts(pairs)[i] != Firsts(pairs)[n];
        }
      }
      assert pairs[n].0 !in PutAll(d, pairs[..n]).keys;
    }
  }

  /** The mapping a pair list leaves behind when its pairs are set in turn. */
  function PairMap<V>(pairs: seq<(string, V)>): map<string, V>
    decreases |pairs|
  {
    if |pairs| == 0 then map[]
    else PairMap(pairs[..|pairs| - 1])[pairs[|pairs| - 1].0 := pairs[|pairs| - 1].1]
  }

  /** A pair list's map is defined exactly on its keys. */
  lemma {:induction false} PairMapKeys<V>(pairs: seq<(string, V)>)
    ensures forall k :: k in PairMap(pairs) <==> k in Firsts(pairs)
    decreases |pairs|
  {
    if |pairs| > 0 {
      var n := |pairs| - 1;
      assert Firsts(pairs) == Firsts(pairs[..n]) + [pairs[n].0];
      PairMapKeys(pairs[..n]);
    }
  }

  /** Starting from `{}`, setting distinct keys one by one builds the dict whose keys
      are the pair list's keys in order and whose map is the pair list's map. */
  lemma {:induction false} PutAllFromEmpty<V>(pairs: seq<(string, V)>)
    requires Distinct(Firsts(pairs))
    ensures PutAll(Empty(), pairs) == Dict(Firsts(pairs), PairMap(pairs))
    decreases |pairs|
  {
    if |pairs| > 0 {
      var n := |pairs| - 1;
      assert Firsts(pairs) == Firsts(pairs[..n]) + [pairs[n].0];
      assert Distinct(Firsts(pairs[..n])) by {
        forall i, j | 0 <= i < j < |pairs[..n]| ensures Firsts(pairs[..n])[i] != Firsts(pairs[..n])[j] {
          assert Firsts(pairs)[i] != Firsts(pairs)[j];
        }
      }
      PutAllFromEmpty(pairs[..n]);
      PairMapKeys(pairs[..n]);
      assert pairs[n].0 !in Firsts(pairs[..n]) by {
        forall i | 0 <= i < n ensures Firsts(pairs[..n])[i] != pairs[n].0 {
          assert Firsts(pairs)[i] != Firsts(pairs)[n];
        }
      }
    }
  }

  /** `d.values()`, in key order. */
  function Values<V>(d: Dict<V>): (r: seq<V>)
    requires d.Valid()
    ensures |r| == |d.keys|
    ensures forall i :: 0 <= i < |r| ==> d.keys[i] in d.vals && r[i] == d.vals[d.keys[i]]
  {
    seq(|d.keys|, i requires 0 <= i < |d.keys| => d.vals[d.keys[i]])
  }

  /** Dicts with the same keys in the same order and the same lookups are equal. */
  lemma Extensional<V>(a: Dict<V>, b: Dict<V>)
    requires a.Valid() && b.Valid() && a.keys == b.keys
    requires forall k :: a.Get(k) == b.Get(k)
    ensures a == b
  {
    assert forall k :: k in a.vals ==> a.Get(k) == Some(a.vals[k]);
    assert a.vals == b.vals;
  }
}
