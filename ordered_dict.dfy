/** Python's dict as the pipeline uses it: an insertion-ordered map. A key that is
    assigned again keeps its place and takes the new value; a new key goes to the end. */
module OrderedDict {

  datatype Dict<K, V> = Dict(keys: seq<K>, m: map<K, V>) {

    /** Every key appears once in the order, and the order lists exactly the map's keys. */
    ghost predicate Valid() {
      && Distinct(keys)
      && (forall k :: k in m ==> k in keys)
      && (forall i :: 0 <= i < |keys| ==> keys[i] in m)
    }

    /** len(d). */
    function Len(): nat {
      |keys|
    }

    /** d[k] = v */
    function Put(k: K, v: V): (d: Dict<K, V>)
      ensures d.m == m[k := v]
      ensures k in m ==> d.keys == keys
      ensures k !in m ==> d.keys == keys + [k]
    {
      if k in m then Dict(keys, m[k := v]) else Dict(keys + [k], m[k := v])
    }

    /** d.update(e): every entry of e is assigned into d, in e's order. */
    function Update(e: Dict<K, V>): (d: Dict<K, V>)
      ensures d.m == m + e.m
      ensures d.keys == keys + NewKeys(e.keys, m)
    {
      Dict(keys + NewKeys(e.keys, m), m + e.m)
    }
  }

  /** Assigning a key keeps a valid dict valid. */
  lemma PutValid<K, V>(d: Dict<K, V>, k: K, v: V)
    requires d.Valid()
    ensures d.Put(k, v).Valid()
  {
  }

  function Empty<K, V>(): (d: Dict<K, V>)
    ensures d.Valid() && d.Len() == 0
  {
    Dict([], map[])
  }

  /** The keys of ks that m does not have, in order. */
  function NewKeys<K, V>(ks: seq<K>, m: map<K, V>): (r: seq<K>)
    ensures forall k :: k in r ==> k in ks && k !in m
    ensures forall i :: 0 <= i < |ks| && ks[i] !in m ==> ks[i] in r
  {
    if ks == [] then []
    else NewKeys(ks[..|ks| - 1], m) + (if ks[|ks| - 1] in m then [] else [ks[|ks| - 1]])
  }

  predicate Distinct<K(==)>(s: seq<K>) {
    forall i, j :: 0 <= i < j < |s| ==> s[i] != s[j]
  }

  lemma {:induction false} NewKeysDistinct<K, V>(ks: seq<K>, m: map<K, V>)
    requires Distinct(ks)
    ensures Distinct(NewKeys(ks, m))
  {
    if ks != [] {
      var init := ks[..|ks| - 1];
      var x := ks[|ks| - 1];
      assert Distinct(init);
      NewKeysDistinct(init, m);
      var r' := NewKeys(init, m);
      forall i | 0 <= i < |r'| ensures r'[i] != x {
        assert r'[i] in init;
        var j :| 0 <= j < |init| && init[j] == r'[i];
        assert ks[j] == init[j];
      }
      if x !in m {
        var r := r' + [x];
        assert NewKeys(ks, m) == r;
        forall i, j | 0 <= i < j < |r| ensures r[i] != r[j] {
          if j == |r'| {
            assert r[j] == x;
          } else {
            assert r[i] == r'[i] && r[j] == r'[j];
          }
        }
      }
    }
  }

  lemma NewKeysSnoc<K, V>(ks: seq<K>, k: K, m: map<K, V>)
    ensures NewKeys(ks + [k], m) == NewKeys(ks, m) + (if k in m then [] else [k])
  {
    assert (ks + [k])[..|ks|] == ks;
  }

  /** Two duplicate-free sequences with nothing in common concatenate to one. */
  lemma DistinctConcat<K>(a: seq<K>, b: seq<K>)
    requires Distinct(a) && Distinct(b)
    requires forall j :: 0 <= j < |b| ==> b[j] !in a
    ensures Distinct(a + b)
  {
    var r := a + b;
    forall i, j | 0 <= i < j < |r| ensures r[i] != r[j] {
      if i >= |a| {
        assert r[i] == b[i - |a|] && r[j] == b[j - |a|];
      } else if j >= |a| {
        assert r[j] == b[j - |a|];
      }
    }
  }

  /** Updating a valid dict with a valid dict gives a valid dict. */
  lemma UpdateValid<K, V>(d: Dict<K, V>, e: Dict<K, V>)
    requires d.Valid() && e.Valid()
    ensures d.Update(e).Valid()
  {
    var n := NewKeys(e.keys, d.m);
    NewKeysDistinct(e.keys, d.m);
    assert forall j :: 0 <= j < |n| ==> n[j] in n;
    DistinctConcat(d.keys, n);
  }

  /** The dict built by assigning the pairs one after another, as a loop of
      `d[k] = v` statements over them does. */
  function FromPairs<K, V>(ps: seq<(K, V)>): Dict<K, V> {
    if ps == [] then Empty() else FromPairs(ps[..|ps| - 1]).Put(ps[|ps| - 1].0, ps[|ps| - 1].1)
  }

  lemma {:induction false} FromPairsValid<K, V>(ps: seq<(K, V)>)
    ensures FromPairs(ps).Valid()
  {
    if ps != [] {
      FromPairsValid(ps[..|ps| - 1]);
      PutValid(FromPairs(ps[..|ps| - 1]), ps[|ps| - 1].0, ps[|ps| - 1].1);
    }
  }

  lemma FromPairsSnoc<K, V>(ps: seq<(K, V)>, p: (K, V))
    ensures FromPairs(ps + [p]) == FromPairs(ps).Put(p.0, p.1)
  {
    assert (ps + [p])[..|ps|] == ps;
  }

  lemma MapUnionAssign<K, V>(a: map<K, V>, b: map<K, V>, k: K, v: V)
    ensures (a + b)[k := v] == a + b[k := v]
  {
    var l := (a + b)[k := v];
    var r := a + b[k := v];
    assert l.Keys == r.Keys;
    forall x | x in l ensures l[x] == r[x] {
      if x != k && x in b {
        assert l[x] == b[x];
      }
    }
  }

  lemma UpdatePut<K, V>(d: Dict<K, V>, e: Dict<K, V>, k: K, v: V)
    ensures d.Update(e).Put(k, v) == d.Update(e.Put(k, v))
  {
    MapUnionAssign(d.m, e.m, k, v);
    if k !in e.m {
      NewKeysSnoc(e.keys, k, d.m);
    }
  }

  /** Assigning A and then B is updating the dict of A with the dict of B. */
  lemma {:induction false} FromPairsAppend<K, V>(a: seq<(K, V)>, b: seq<(K, V)>)
    ensures FromPairs(a + b) == FromPairs(a).Update(FromPairs(b))
  {
    if b == [] {
      assert a + b == a;
      assert FromPairs(a).m + map[] == FromPairs(a).m;
    } else {
      var b' := b[..|b| - 1];
      var p := b[|b| - 1];
      assert b == b' + [p];
      assert a + b == (a + b') + [p];
      FromPairsSnoc(a + b', p);
      FromPairsSnoc(b', p);
      FromPairsAppend(a, b');
      UpdatePut(FromPairs(a), FromPairs(b'), p.0, p.1);
    }
  }

  /** A key is present exactly when some pair names it. */
  lemma {:induction false} FromPairsHasKey<K, V>(ps: seq<(K, V)>, k: K)
    ensures k in FromPairs(ps).m <==> exists i :: 0 <= i < |ps| && ps[i].0 == k
  {
    if ps != [] {
      var init := ps[..|ps| - 1];
      FromPairsHasKey(init, k);
      if exists i :: 0 <= i < |init| && init[i].0 == k {
        var i :| 0 <= i < |init| && init[i].0 == k;
        assert ps[i].0 == k;
      }
      if exists i :: 0 <= i < |ps| && ps[i].0 == k {
        var i :| 0 <= i < |ps| && ps[i].0 == k;
        if i < |init| {
          assert init[i].0 == k;
        }
      }
    }
  }

  /** Last write wins: the value of a key is the one of the last pair naming it. */
  lemma {:induction false} FromPairsLastWins<K, V>(ps: seq<(K, V)>, i: nat)
    requires i < |ps|
    requires forall j :: i < j < |ps| ==> ps[j].0 != ps[i].0
    ensures ps[i].0 in FromPairs(ps).m && FromPairs(ps).m[ps[i].0] == ps[i].1
  {
    if i < |ps| - 1 {
      var init := ps[..|ps| - 1];
      assert init[i] == ps[i];
      FromPairsLastWins(init, i);
    }
  }

  /** The pairs whose key passes keep, in their order. */
  function Filter<K, V>(ps: seq<(K, V)>, keep: K -> bool): seq<(K, V)> {
    if ps == [] then []
    else Filter(ps[..|ps| - 1], keep) + (if keep(ps[|ps| - 1].0) then [ps[|ps| - 1]] else [])
  }

  lemma FilterSnoc<K, V>(ps: seq<(K, V)>, p: (K, V), keep: K -> bool)
    ensures Filter(ps + [p], keep) == if keep(p.0) then Filter(ps, keep) + [p] else Filter(ps, keep)
  {
    assert (ps + [p])[..|ps|] == ps;
    assert Filter(ps, keep) + [] == Filter(ps, keep);
  }

  /** Assigning the pairs that pass keep records a key exactly when it passes keep and some
      pair names it. */
  lemma {:induction false} FilterHasKey<K, V>(ps: seq<(K, V)>, keep: K -> bool, k: K)
    ensures k in FromPairs(Filter(ps, keep)).m <==> keep(k) && exists i :: 0 <= i < |ps| && ps[i].0 == k
  {
    if ps != [] {
      var init := ps[..|ps| - 1];
      var p := ps[|ps| - 1];
      assert ps == init + [p];
      FilterSnoc(init, p, keep);
      FilterHasKey(init, keep, k);
      if keep(p.0) {
        FromPairsSnoc(Filter(init, keep), p);
      }
      if exists i :: 0 <= i < |init| && init[i].0 == k {
        var i :| 0 <= i < |init| && init[i].0 == k;
        assert ps[i].0 == k;
      }
      if exists i :: 0 <= i < |ps| && ps[i].0 == k {
        var i :| 0 <= i < |ps| && ps[i].0 == k;
        if i < |init| {
          assert init[i].0 == k;
        }
      }
    }
  }

  /** Among the pairs that pass keep, the last pair naming a key gives its value. */
  lemma {:induction false} FilterLastWins<K, V>(ps: seq<(K, V)>, keep: K -> bool, i: nat)
    requires i < |ps| && keep(ps[i].0)
    requires forall j :: i < j < |ps| ==> ps[j].0 != ps[i].0
    ensures ps[i].0 in FromPairs(Filter(ps, keep)).m && FromPairs(Filter(ps, keep)).m[ps[i].0] == ps[i].1
  {
    var init := ps[..|ps| - 1];
    var p := ps[|ps| - 1];
    assert ps == init + [p];
    FilterSnoc(init, p, keep);
    if keep(p.0) {
      FromPairsSnoc(Filter(init, keep), p);
    }
    if i < |ps| - 1 {
      assert init[i] == ps[i];
      FilterLastWins(init, keep, i);
    }
  }

  /** Assigning n pairs leaves at most n keys. */
  lemma {:induction false} FromPairsLen<K, V>(ps: seq<(K, V)>)
    ensures FromPairs(ps).Len() <= |ps|
  {
    if ps != [] {
      FromPairsLen(ps[..|ps| - 1]);
    }
  }

  /** Pairs with distinct keys, as the items of a dict are, build a dict with those keys in
      that order, each with its own value. */
  lemma {:induction false} FromPairsDistinct<K, V>(ps: seq<(K, V)>)
    requires forall i, j :: 0 <= i < j < |ps| ==> ps[i].0 != ps[j].0
    ensures |FromPairs(ps).keys| == |ps|
    ensures forall i :: 0 <= i < |ps| ==> FromPairs(ps).keys[i] == ps[i].0
    ensures forall i :: 0 <= i < |ps| ==> ps[i].0 in FromPairs(ps).m && FromPairs(ps).m[ps[i].0] == ps[i].1
  {
    if ps != [] {
      var init := ps[..|ps| - 1];
      var p := ps[|ps| - 1];
      FromPairsDistinct(init);
      FromPairsHasKey(init, p.0);
      forall i | 0 <= i < |ps| ensures ps[i].0 in FromPairs(ps).m && FromPairs(ps).m[ps[i].0] == ps[i].1 {
        FromPairsLastWins(ps, i);
      }
    }
  }
}
