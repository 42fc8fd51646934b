/**
 Filling a dict in insertion order, and filling it again after its keys have been read differently:
 a repeated key keeps its first place and takes its last value.
 */
module Dicts {

  datatype Pairs<K, V> = Pairs(keys: seq<K>, values: seq<V>)

  /** Where the key stands; past the end when it does not. */
  function Find<K(==)>(keys: seq<K>, k: K): (i: nat)
    ensures i < |keys| ==> keys[i] == k
    ensures i >= |keys| ==> k !in keys
  {
    if keys == [] || keys[0] == k then 0 else 1 + Find(keys[1..], k)
  }

  /** `d[k] = v`. */
  function Assign<K(==), V>(d: Pairs<K, V>, k: K, v: V): (r: Pairs<K, V>)
    requires |d.keys| == |d.values|
    ensures |r.keys| == |r.values|
  {
    var i := Find(d.keys, k);
    if i < |d.keys| then Pairs(d.keys, d.values[i := v]) else Pairs(d.keys + [k], d.values + [v])
  }

  /** The dict of these pairs, assigned in order. */
  function Build<K(==), V>(keys: seq<K>, values: seq<V>): (r: Pairs<K, V>)
    requires |keys| == |values|
    ensures |r.keys| == |r.values|
  {
    if keys == [] then Pairs([], [])
    else Assign(Build(keys[..|keys| - 1], values[..|values| - 1]), keys[|keys| - 1], values[|values| - 1])
  }

  // ---------------------------------------------------------------------------
  // What is built, without building it
  // ---------------------------------------------------------------------------

  ghost predicate NoRepeats<K>(ks: seq<K>) {
    forall i, j | 0 <= i < j < |ks| :: ks[i] != ks[j]
  }

  /** Each key once, at its first place. */
  function Firsts<K(==)>(ks: seq<K>): seq<K> {
    if ks == [] then []
    else
      var init, k := ks[..|ks| - 1], ks[|ks| - 1];
      Firsts(init) + if k in init then [] else [k]
  }

  /** The last place of a key. */
  function Last<K(==)>(ks: seq<K>, k: K): (i: nat)
    requires k in ks
    ensures i < |ks| && ks[i] == k
  {
    if ks[|ks| - 1] == k then |ks| - 1 else Last(ks[..|ks| - 1], k)
  }

  /** The last value given to each of these keys. */
  function Picked<K(==), V>(ks: seq<K>, vs: seq<V>, ds: seq<K>): (r: seq<V>)
    requires |ks| == |vs| && forall d | d in ds :: d in ks
    ensures |r| == |ds|
  {
    if ds == [] then []
    else
      assert ds[|ds| - 1] in ds;
      Picked(ks, vs, ds[..|ds| - 1]) + [vs[Last(ks, ds[|ds| - 1])]]
  }

  lemma {:induction false} PickedAt<K, V>(ks: seq<K>, vs: seq<V>, ds: seq<K>, a: nat)
    requires |ks| == |vs| && (forall d | d in ds :: d in ks) && a < |ds|
    ensures ds[a] in ks && Picked(ks, vs, ds)[a] == vs[Last(ks, ds[a])]
  {
    if a < |ds| - 1 {
      PickedAt(ks, vs, ds[..|ds| - 1], a);
    }
  }

  lemma {:induction false} FirstsExactly<K>(ks: seq<K>)
    ensures forall k | k in Firsts(ks) :: k in ks
    ensures forall k | k in ks :: k in Firsts(ks)
    ensures NoRepeats(Firsts(ks))
  {
    if ks != [] {
      var init, k := ks[..|ks| - 1], ks[|ks| - 1];
      FirstsExactly(init);
      assert ks == init + [k];
    }
  }

  lemma LastSnoc<K>(init: seq<K>, k: K, d: K)
    requires d in init || d == k
    ensures Last(init + [k], d) == if d == k then |init| else Last(init, d)
  {
    assert (init + [k])[..|init|] == init;
  }

  /** One more assignment changes the picked value of its own key and of no other. */
  lemma PickedSnoc<K, V>(init: seq<K>, vs: seq<V>, k: K, v: V, ds: seq<K>)
    requires |init| == |vs| && forall d | d in ds :: d in init
    ensures forall a | 0 <= a < |ds| ::
              Picked(init + [k], vs + [v], ds)[a] == if ds[a] == k then v else Picked(init, vs, ds)[a]
  {
    forall a | 0 <= a < |ds|
      ensures Picked(init + [k], vs + [v], ds)[a] == if ds[a] == k then v else Picked(init, vs, ds)[a]
    {
      PickedAt(init + [k], vs + [v], ds, a);
      PickedAt(init, vs, ds, a);
      LastSnoc(init, k, ds[a]);
    }
  }

  /** A dict holds each key at its first place with its last value. */
  ghost predicate Holds<K, V>(d: Pairs<K, V>, ks: seq<K>, vs: seq<V>)
    requires |ks| == |vs|
  {
    (forall k | k in Firsts(ks) :: k in ks) && d == Pairs(Firsts(ks), Picked(ks, vs, Firsts(ks)))
  }

  lemma {:induction false} BuildExactly<K, V>(ks: seq<K>, vs: seq<V>)
    requires |ks| == |vs|
    ensures Holds(Build(ks, vs), ks, vs)
  {
    if ks != [] {
      var init, k, vinit, v := ks[..|ks| - 1], ks[|ks| - 1], vs[..|vs| - 1], vs[|vs| - 1];
      assert ks == init + [k];
      assert vs == vinit + [v];
      BuildExactly(init, vinit);
      BuildMore(init, vinit, k, v);
    }
  }

  lemma {:induction false} BuildMore<K, V>(ks: seq<K>, vs: seq<V>, k: K, v: V)
    requires |ks| == |vs| && Holds(Build(ks, vs), ks, vs)
    ensures Holds(Build(ks + [k], vs + [v]), ks + [k], vs + [v])
  {
    BuildSnoc(ks, vs, k, v);
    FirstsSnoc(ks, k);
    if k in ks {
      AssignOld(ks, vs, k, v);
    } else {
      AssignNew(ks, vs, k, v);
    }
  }

  lemma {:induction false} BuildSnoc<K, V>(ks: seq<K>, vs: seq<V>, k: K, v: V)
    requires |ks| == |vs|
    ensures Build(ks + [k], vs + [v]) == Assign(Build(ks, vs), k, v)
  {
    assert (ks + [k])[..|ks|] == ks && (vs + [v])[..|vs|] == vs;
  }

  lemma {:induction false} FirstsSnoc<K>(ks: seq<K>, k: K)
    ensures Firsts(ks + [k]) == if k in ks then Firsts(ks) else Firsts(ks) + [k]
  {
    assert (ks + [k])[..|ks|] == ks;
  }

  lemma {:induction false} AssignOld<K, V>(ks: seq<K>, vs: seq<V>, k: K, v: V)
    requires |ks| == |vs| && (forall d | d in Firsts(ks) :: d in ks) && k in ks
    ensures Assign(Pairs(Firsts(ks), Picked(ks, vs, Firsts(ks))), k, v) ==
            Pairs(Firsts(ks), Picked(ks + [k], vs + [v], Firsts(ks)))
  {
    var ds := Firsts(ks);
    FirstsExactly(ks);
    PickedSnoc(ks, vs, k, v, ds);
    var i := Find(ds, k);
    assert Picked(ks, vs, ds)[i := v] == Picked(ks + [k], vs + [v], ds);
  }

  lemma {:induction false} AssignNew<K, V>(ks: seq<K>, vs: seq<V>, k: K, v: V)
    requires |ks| == |vs| && (forall d | d in Firsts(ks) :: d in ks) && k !in ks
    ensures Assign(Pairs(Firsts(ks), Picked(ks, vs, Firsts(ks))), k, v) ==
            Pairs(Firsts(ks) + [k], Picked(ks + [k], vs + [v], Firsts(ks) + [k]))
  {
    PickedMore(ks, vs, k, v);
  }

  lemma {:induction false} PickedMore<K, V>(ks: seq<K>, vs: seq<V>, k: K, v: V)
    requires |ks| == |vs| && (forall d | d in Firsts(ks) :: d in ks) && k !in ks
    ensures Picked(ks + [k], vs + [v], Firsts(ks) + [k]) == Picked(ks, vs, Firsts(ks)) + [v]
  {
    var ds := Firsts(ks);
    PickedSnoc(ks, vs, k, v, ds);
    LastSnoc(ks, k, k);
    assert (ds + [k])[..|ds|] == ds;
    assert Picked(ks, vs, ds) == Picked(ks + [k], vs + [v], ds);
  }

  lemma {:induction false} FirstsDistinct<K>(ks: seq<K>)
    requires NoRepeats(ks)
    ensures Firsts(ks) == ks
  {
    if ks != [] {
      var n := |ks| - 1;
      FirstsDistinct(ks[..n]);
      assert ks == ks[..n] + [ks[n]];
    }
  }

  lemma {:induction false} PickedSelf<K, V>(ks: seq<K>, vs: seq<V>)
    requires |ks| == |vs| && NoRepeats(ks)
    ensures Picked(ks, vs, ks) == vs
  {
    forall a | 0 <= a < |ks|
      ensures Picked(ks, vs, ks)[a] == vs[a]
    {
      PickedAt(ks, vs, ks, a);
    }
  }

  /** Distinct keys are kept as they are. */
  lemma {:induction false} BuildDistinct<K, V>(ks: seq<K>, vs: seq<V>)
    requires |ks| == |vs| && NoRepeats(ks)
    ensures Build(ks, vs) == Pairs(ks, vs)
  {
    BuildExactly(ks, vs);
    FirstsDistinct(ks);
    PickedSelf(ks, vs);
  }

  // ---------------------------------------------------------------------------
  // Building twice
  // ---------------------------------------------------------------------------

  /** Equal keys are read alike. */
  ghost predicate ReadAlike<K, R>(ks: seq<K>, rs: seq<R>) {
    |ks| == |rs| && forall i, j | 0 <= i < |ks| && 0 <= j < |ks| && ks[i] == ks[j] :: rs[i] == rs[j]
  }

  lemma PickedAlike<K, R>(ks: seq<K>, rs: seq<R>, ds: seq<K>, r: R)
    requires ReadAlike(ks, rs) && (forall d | d in ds :: d in ks) && (forall k | k in ks :: k in ds)
    ensures r in Picked(ks, rs, ds) <==> r in rs
  {
    if r in Picked(ks, rs, ds) {
      var a :| 0 <= a < |ds| && Picked(ks, rs, ds)[a] == r;
      PickedAt(ks, rs, ds, a);
    }
    if r in rs {
      var i :| 0 <= i < |rs| && rs[i] == r;
      assert ks[i] in ds;
      var a :| 0 <= a < |ds| && ds[a] == ks[i];
      PickedAt(ks, rs, ds, a);
    }
  }

  /** Read through the distinct keys, the order of the first places is the same. */
  ghost predicate SameOrder<K, R>(ks: seq<K>, rs: seq<R>)
    requires |ks| == |rs|
  {
    (forall d | d in Firsts(ks) :: d in ks) && Firsts(Picked(ks, rs, Firsts(ks))) == Firsts(rs)
  }

  lemma {:induction false} FirstsOfFirsts<K, R>(ks: seq<K>, rs: seq<R>)
    requires ReadAlike(ks, rs)
    ensures SameOrder(ks, rs)
  {
    if ks != [] {
      var init, k, rinit, r := ks[..|ks| - 1], ks[|ks| - 1], rs[..|rs| - 1], rs[|rs| - 1];
      FirstsOfFirsts(init, rinit);
      assert ks == init + [k] && rs == rinit + [r];
      OneMoreFirst(init, rinit, k, r);
    }
  }

  lemma {:induction false} OneMoreFirst<K, R>(ks: seq<K>, rs: seq<R>, k: K, r: R)
    requires ReadAlike(ks, rs) && ReadAlike(ks + [k], rs + [r]) && SameOrder(ks, rs)
    ensures SameOrder(ks + [k], rs + [r])
  {
    FirstsExactly(ks);
    if k in ks {
      SameReading(ks, rs, k, r, Firsts(ks));
      OldFirst(ks, rs, k, r);
    } else {
      PickedAlike(ks, rs, Firsts(ks), r);
      NewFirst(ks, rs, k, r);
    }
  }

  lemma {:induction false} OldFirst<K, R>(ks: seq<K>, rs: seq<R>, k: K, r: R)
    requires |ks| == |rs| && SameOrder(ks, rs) && k in ks && r in rs
    requires Picked(ks + [k], rs + [r], Firsts(ks)) == Picked(ks, rs, Firsts(ks))
    ensures SameOrder(ks + [k], rs + [r])
  {
    FirstsSnoc(ks, k);
    FirstsSnoc(rs, r);
  }

  lemma {:induction false} NewFirst<K, R>(ks: seq<K>, rs: seq<R>, k: K, r: R)
    requires |ks| == |rs| && SameOrder(ks, rs) && k !in ks && (r in Picked(ks, rs, Firsts(ks)) <==> r in rs)
    ensures SameOrder(ks + [k], rs + [r])
  {
    FirstsSnoc(ks, k);
    FirstsSnoc(rs, r);
    PickedMore(ks, rs, k, r);
    FirstsSnoc(Picked(ks, rs, Firsts(ks)), r);
  }

  /** Assigning a key again, read as before, changes no reading. */
  lemma {:induction false} SameReading<K, R>(ks: seq<K>, rs: seq<R>, k: K, r: R, ds: seq<K>)
    requires ReadAlike(ks + [k], rs + [r]) && |ks| == |rs| && k in ks && forall d | d in ds :: d in ks
    ensures Picked(ks + [k], rs + [r], ds) == Picked(ks, rs, ds) && r in rs
  {
    var i :| 0 <= i < |ks| && ks[i] == k;
    assert (ks + [k])[i] == (ks + [k])[|ks|] && (rs + [r])[i] == (rs + [r])[|ks|];
    PickedSnoc(ks, rs, k, r, ds);
    forall a | 0 <= a < |ds|
      ensures Picked(ks + [k], rs + [r], ds)[a] == Picked(ks, rs, ds)[a]
    {
      PickedAt(ks, rs, ds, a);
      var j := Last(ks, ds[a]);
      assert ds[a] == k ==> (ks + [k])[j] == (ks + [k])[|ks|] && (rs + [r])[j] == (rs + [r])[|ks|];
    }
  }

  /** The last of the distinct keys that are read as `r`. */
  function LastRead<K(==), R(==)>(ks: seq<K>, rs: seq<R>, r: R): (k: K)
    requires ReadAlike(ks, rs) && r in rs
    ensures k in ks
  {
    FirstsExactly(ks);
    PickedAlike(ks, rs, Firsts(ks), r);
    var k := Firsts(ks)[Last(Picked(ks, rs, Firsts(ks)), r)];
    assert k in Firsts(ks);
    k
  }

  /** The last assignment to `r` is one to the last of the distinct keys read as `r`, or has its value. */
  ghost predicate Agrees<K, R, V>(ks: seq<K>, rs: seq<R>, vs: seq<V>, r: R)
    requires ReadAlike(ks, rs) && |vs| == |ks| && r in rs
  {
    vs[Last(ks, LastRead(ks, rs, r))] == vs[Last(rs, r)]
  }

  /**
   Folding repeated keys before they are read, and folding what is left after, is folding them as
   they are read, exactly when for every key read the two last assignments agree.
   */
  lemma RebuildExactly<K, R, V>(ks: seq<K>, rs: seq<R>, vs: seq<V>)
    requires ReadAlike(ks, rs) && |vs| == |ks|
    ensures forall d | d in Firsts(ks) :: d in ks
    ensures Build(Picked(ks, rs, Firsts(ks)), Picked(ks, vs, Firsts(ks))) == Build(rs, vs) <==>
      forall r | r in rs :: Agrees(ks, rs, vs, r)
  {
    FirstsExactly(ks);
    var ds := Firsts(ks);
    var ps, us := Picked(ks, rs, ds), Picked(ks, vs, ds);
    BuildExactly(ps, us);
    BuildExactly(rs, vs);
    FirstsOfFirsts(ks, rs);
    FirstsExactly(rs);
    var es := Firsts(rs);
    forall a | 0 <= a < |es|
      ensures es[a] in rs && (Picked(ps, us, es)[a] == Picked(rs, vs, es)[a] <==> Agrees(ks, rs, vs, es[a]))
    {
      assert es[a] in es;
      PickedAt(ps, us, es, a);
      PickedAt(rs, vs, es, a);
      PickedAt(ks, vs, ds, Last(ps, es[a]));
    }
    if Picked(ps, us, es) == Picked(rs, vs, es) {
      forall r | r in rs
        ensures Agrees(ks, rs, vs, r)
      {
        assert r in es;
        var a :| 0 <= a < |es| && es[a] == r;
      }
    } else {
      assert exists a | 0 <= a < |es| :: Picked(ps, us, es)[a] != Picked(rs, vs, es)[a];
    }
  }

  /** A key repeated around another that is read alike: the last assignment is not to the last distinct key. */
  lemma AroundDisagrees<K, R, V>(ks: seq<K>, rs: seq<R>, vs: seq<V>)
    requires |ks| == |rs| == |vs| == 3 && ReadAlike(ks, rs)
    requires ks[0] == ks[2] && ks[0] != ks[1] && rs[0] == rs[1] == rs[2]
    ensures Agrees(ks, rs, vs, rs[0]) <==> vs[1] == vs[2]
  {
    var a, w, r := ks[0], ks[1], rs[0];
    assert ks == [a, w, a] && rs == [r, r, r];
    FirstsAround(a, w);
    assert Last(ks, a) == 2;
    PickedAt(ks, rs, [a, w], 0);
    PickedAt(ks, rs, [a, w], 1);
    assert Picked(ks, rs, [a, w]) == [r, r];
    LastSnoc([a, w], a, w);
    LastSnoc([a], w, w);
    assert [a, w] + [a] == ks && [a] + [w] == [a, w];
  }

  lemma FirstsAround<K>(a: K, w: K)
    requires a != w
    ensures Firsts([a, w, a]) == [a, w]
  {
    assert [] + [a] == [a] && [a] + [w] == [a, w] && [a, w] + [a] == [a, w, a];
    FirstsSnoc([], a);
    FirstsSnoc([a], w);
    FirstsSnoc([a, w], a);
  }
}
