/**
 * Python dictionaries with string keys, as the scraper builds its records:
 * the keys in insertion order and the value of each. Assigning to a present
 * key keeps its place; a new key goes last.
 */
module OrderedDict {

  /** One cell of an extracted record: scraped text, or Python's `None`. */
  datatype Value = Str(text: string) | Null

  datatype Dict = Dict(keys: seq<string>, vals: map<string, Value>)

  predicate Distinct(ks: seq<string>) {
    forall i, j :: 0 <= i < j < |ks| ==> ks[i] != ks[j]
  }

  /** The keys are listed once each, and exactly the keys that have values. */
  ghost predicate Valid(d: Dict) {
    Distinct(d.keys) && forall k :: k in d.vals <==> k in d.keys
  }

  const Empty: Dict := Dict([], map[])

  /** `d[k] = v`. */
  function Put(d: Dict, k: string, v: Value): (r: Dict)
    ensures r.vals == d.vals[k := v]
    ensures k in d.vals ==> r.keys == d.keys
    ensures k !in d.vals ==> r.keys == d.keys + [k]
  {
    if k in d.vals then Dict(d.keys, d.vals[k := v]) else Dict(d.keys + [k], d.vals[k := v])
  }

  lemma {:induction false} PutKeepsValid(d: Dict, k: string, v: Value)
    requires Valid(d)
    ensures Valid(Put(d, k, v))
  {
  }

  /** The keys of `ks` that are not in `seen`, each once, at its first occurrence. */
  function Fresh(ks: seq<string>, seen: set<string>): (r: seq<string>)
    ensures Distinct(r)
    ensures forall k :: k in r <==> k in ks && k !in seen
    decreases |ks|
  {
    if ks == [] then []
    else if ks[0] in seen then Fresh(ks[1..], seen)
    else [ks[0]] + Fresh(ks[1..], seen + {ks[0]})
  }

  /** Taking first occurrences twice is taking them once against both exclusions. */
  lemma {:induction false} FreshTwice(ks: seq<string>, s1: set<string>, s2: set<string>)
    ensures Fresh(Fresh(ks, s1), s2) == Fresh(ks, s1 + s2)
    decreases |ks|
  {
    if ks != [] {
      var k, rest := ks[0], ks[1..];
      if k in s1 {
        FreshTwice(rest, s1, s2);
      } else {
        var inner := Fresh(rest, s1 + {k});
        assert Fresh(ks, s1) == [k] + inner;
        assert ([k] + inner)[1..] == inner;
        if k in s2 {
          FreshTwice(rest, s1 + {k}, s2);
          assert s1 + {k} + s2 == s1 + s2;
        } else {
          FreshTwice(rest, s1 + {k}, s2 + {k});
          assert s1 + {k} + (s2 + {k}) == s1 + s2 + {k};
        }
      }
    }
  }

  /** The entries of `m` whose keys are listed in `ks`. */
  function Restrict(m: map<string, Value>, ks: seq<string>): (r: map<string, Value>)
    ensures forall k :: k in r <==> k in m && k in ks
  {
    map k | k in m && k in ks :: m[k]
  }

  /** `d[k] = e[k]` for each `k` of `ks` in turn. */
  function PutEach(d: Dict, e: Dict, ks: seq<string>): (r: Dict)
    requires forall k :: k in ks ==> k in e.vals
    decreases |ks|
  {
    if ks == [] then d else PutEach(Put(d, ks[0], e.vals[ks[0]]), e, ks[1..])
  }

  lemma {:induction false} PutEachValues(d: Dict, e: Dict, ks: seq<string>)
    requires forall k :: k in ks ==> k in e.vals
    ensures PutEach(d, e, ks).vals == d.vals + Restrict(e.vals, ks)
    decreases |ks|
  {
    if ks == [] {
      assert Restrict(e.vals, ks) == map[];
      assert d.vals + map[] == d.vals;
    } else {
      var k := ks[0];
      PutEachValues(Put(d, k, e.vals[k]), e, ks[1..]);
      assert PutEach(d, e, ks) == PutEach(Put(d, k, e.vals[k]), e, ks[1..]);
      assert Restrict(e.vals, ks) == map[k := e.vals[k]] + Restrict(e.vals, ks[1..]);
      MapUnionShift(d.vals, k, e.vals[k], Restrict(e.vals, ks[1..]));
    }
  }

  lemma {:induction false} PutEachKeys(d: Dict, e: Dict, ks: seq<string>)
    requires forall k :: k in ks ==> k in e.vals
    ensures PutEach(d, e, ks).keys == d.keys + Fresh(ks, d.vals.Keys)
    decreases |ks|
  {
    if ks != [] {
      var k := ks[0];
      var d' := Put(d, k, e.vals[k]);
      PutEachKeys(d', e, ks[1..]);
      assert PutEach(d, e, ks) == PutEach(d', e, ks[1..]);
      assert d'.vals.Keys == d.vals.Keys + {k};
      if k in d.vals {
        assert d.vals.Keys + {k} == d.vals.Keys;
        assert Fresh(ks, d.vals.Keys) == Fresh(ks[1..], d.vals.Keys);
      } else {
        assert Fresh(ks, d.vals.Keys) == [k] + Fresh(ks[1..], d.vals.Keys + {k});
      }
    } else {
      assert d.keys + [] == d.keys;
    }
  }

  lemma {:induction false} PutEachKeepsValid(d: Dict, e: Dict, ks: seq<string>)
    requires Valid(d)
    requires forall k :: k in ks ==> k in e.vals
    ensures Valid(PutEach(d, e, ks))
    decreases |ks|
  {
    if ks != [] {
      PutKeepsValid(d, ks[0], e.vals[ks[0]]);
      PutEachKeepsValid(Put(d, ks[0], e.vals[ks[0]]), e, ks[1..]);
    }
  }

  /** `d.update(e)`: `e`'s entries in `e`'s order; on a shared key `e` wins and `d`'s place stays. */
  function Update(d: Dict, e: Dict): (r: Dict)
    requires Valid(d) && Valid(e)
    ensures Valid(r)
    ensures r.vals == d.vals + e.vals
    ensures r.keys == d.keys + Fresh(e.keys, d.vals.Keys)
  {
    assert Restrict(e.vals, e.keys) == e.vals;
    PutEachValues(d, e, e.keys);
    PutEachKeys(d, e, e.keys);
    PutEachKeepsValid(d, e, e.keys);
    PutEach(d, e, e.keys)
  }

  /** The keys of a sequence of pairs, in order, repeats included. */
  function KeysOf(ps: seq<(string, Value)>): (ks: seq<string>)
    ensures |ks| == |ps|
    ensures forall i :: 0 <= i < |ps| ==> ks[i] == ps[i].0
    decreases |ps|
  {
    if ps == [] then [] else [ps[0].0] + KeysOf(ps[1..])
  }

  /** The map a sequence of pairs denotes when a later pair overrides an earlier one. */
  function MapOf(ps: seq<(string, Value)>): (m: map<string, Value>)
    ensures forall k :: k in m <==> k in KeysOf(ps)
    decreases |ps|
  {
    if ps == [] then map[] else map[ps[0].0 := ps[0].1] + MapOf(ps[1..])
  }

  /** Of several pairs with one key, the last one gives the value. */
  lemma {:induction false} LastPairWins(ps: seq<(string, Value)>, i: nat)
    requires i < |ps|
    requires forall j :: i < j < |ps| ==> ps[j].0 != ps[i].0
    ensures ps[i].0 in MapOf(ps) && MapOf(ps)[ps[i].0] == ps[i].1
    decreases |ps|
  {
    if i == 0 {
      assert ps[0].0 !in KeysOf(ps[1..]);
    } else {
      LastPairWins(ps[1..], i - 1);
    }
  }

  lemma {:induction false} MapUnionShift(m: map<string, Value>, k: string, v: Value, n: map<string, Value>)
    ensures m[k := v] + n == m + (map[k := v] + n)
  {
  }

  /** `d[k] = v` for each pair of `ps` in turn. */
  function PutAll(d: Dict, ps: seq<(string, Value)>): (r: Dict)
    decreases |ps|
  {
    if ps == [] then d else PutAll(Put(d, ps[0].0, ps[0].1), ps[1..])
  }

  lemma {:induction false} PutAllValues(d: Dict, ps: seq<(string, Value)>)
    ensures PutAll(d, ps).vals == d.vals + MapOf(ps)
    decreases |ps|
  {
    if ps != [] {
      var k, v := ps[0].0, ps[0].1;
      PutAllValues(Put(d, k, v), ps[1..]);
      var rest := MapOf(ps[1..]);
      assert MapOf(ps) == map[k := v] + rest;
      MapUnionShift(d.vals, k, v, rest);
    }
  }

  lemma {:induction false} PutAllKeys(d: Dict, ps: seq<(string, Value)>)
    ensures PutAll(d, ps).keys == d.keys + Fresh(KeysOf(ps), d.vals.Keys)
    decreases |ps|
  {
    if ps != [] {
      var k := ps[0].0;
      var d' := Put(d, k, ps[0].1);
      PutAllKeys(d', ps[1..]);
      assert PutAll(d, ps) == PutAll(d', ps[1..]);
      assert KeysOf(ps) == [k] + KeysOf(ps[1..]);
      FreshCons(k, KeysOf(ps[1..]), d.vals.Keys);
      assert d'.vals.Keys == d.vals.Keys + {k};
      if k in d.vals {
        assert d.vals.Keys + {k} == d.vals.Keys;
      }
    } else {
      assert d.keys + [] == d.keys;
    }
  }

  /** How `Fresh` treats the first key. */
  lemma {:induction false} FreshCons(k: string, rest: seq<string>, seen: set<string>)
    ensures k in seen ==> Fresh([k] + rest, seen) == Fresh(rest, seen)
    ensures k !in seen ==> Fresh([k] + rest, seen) == [k] + Fresh(rest, seen + {k})
  {
    assert ([k] + rest)[1..] == rest;
  }

  lemma {:induction false} PutAllKeepsValid(d: Dict, ps: seq<(string, Value)>)
    requires Valid(d)
    ensures Valid(PutAll(d, ps))
    decreases |ps|
  {
    if ps != [] {
      PutKeepsValid(d, ps[0].0, ps[0].1);
      PutAllKeepsValid(Put(d, ps[0].0, ps[0].1), ps[1..]);
    }
  }

  lemma {:induction false} EmptyUnion(m: map<string, Value>)
    ensures Empty.vals + m == m && Empty.vals.Keys == {}
  {
  }

  /**
   * A dict comprehension over pairs: keys in order of first appearance,
   * each mapped to its last value.
   */
  function FromPairs(ps: seq<(string, Value)>): (r: Dict)
    ensures Valid(r)
    ensures r.vals == MapOf(ps)
    ensures r.keys == Fresh(KeysOf(ps), {})
  {
    PutAllValues(Empty, ps);
    PutAllKeys(Empty, ps);
    PutAllKeepsValid(Empty, ps);
    EmptyUnion(MapOf(ps));
    PutAll(Empty, ps)
  }

  /** Updating with a comprehension over pairs equals assigning the pairs one by one. */
  lemma {:induction false} UpdateFromPairs(d: Dict, ps: seq<(string, Value)>)
    requires Valid(d)
    ensures Update(d, FromPairs(ps)) == PutAll(d, ps)
  {
    FreshTwice(KeysOf(ps), {}, d.vals.Keys);
    assert {} + d.vals.Keys == d.vals.Keys;
    PutAllValues(d, ps);
    PutAllKeys(d, ps);
    PutAllKeepsValid(d, ps);
  }
}
