/**
 * Python's `OrderedDict` keyed by strings, as a value: the keys in insertion
 * order and the map from key to value. Assigning to a new key appends it;
 * assigning to an existing key overwrites its value where it stands.
 */
module OrderedDict {

  datatype ODict<V> = ODict(keys: seq<string>, vals: map<string, V>)

  predicate Distinct(ks: seq<string>) {
    forall i, j | 0 <= i < j < |ks| :: ks[i] != ks[j]
  }

  /** The key order and the map agree: every key once, and exactly the map's keys. */
  ghost predicate Valid<V>(d: ODict<V>) {
    Distinct(d.keys) && forall k :: k in d.vals <==> k in d.keys
  }

  function Empty<V>(): (d: ODict<V>)
    ensures Valid(d) && d.keys == []
  {
    ODict([], map[])
  }

  /** `d[k] = v`. */
  function Put<V>(d: ODict<V>, k: string, v: V): (r: ODict<V>)
    requires Valid(d)
    ensures Valid(r)
    ensures k in r.vals && r.vals[k] == v
    ensures forall j | j != k :: (j in r.vals <==> j in d.vals) && (j in d.vals ==> r.vals[j] == d.vals[j])
    ensures d.keys <= r.keys && |r.keys| == |d.keys| + (if k in d.vals then 0 else 1)
  {
    if k in d.vals then ODict(d.keys, d.vals[k := v])
    else
      var ks := d.keys + [k];
      assert forall j :: j in ks <==> j in d.keys || j == k;
      ODict(ks, d.vals[k := v])
  }

  /** `del d[next(iter(d))]`: the oldest key goes. */
  function PopOldest<V>(d: ODict<V>): (r: ODict<V>)
    requires Valid(d) && |d.keys| > 0
    ensures Valid(r)
    ensures r.keys == d.keys[1..] && d.keys[0] !in r.vals
    ensures forall j | j in r.vals :: j in d.vals && r.vals[j] == d.vals[j]
  {
    var ks := d.keys[1..];
    assert forall j :: j in d.keys <==> j == d.keys[0] || j in ks;
    ODict(ks, map j | j in d.vals && j != d.keys[0] :: d.vals[j])
  }

  /** Assigning the pairs of `ps` one after another, in order. */
  function PutAll<V>(d: ODict<V>, ps: seq<(string, V)>): (r: ODict<V>)
    requires Valid(d)
    ensures Valid(r)
    decreases |ps|
  {
    if ps == [] then d
    else
      var last := ps[|ps| - 1];
      Put(PutAll(d, ps[..|ps| - 1]), last.0, last.1)
  }

  lemma {:induction false} PutAllAppend<V>(d: ODict<V>, a: seq<(string, V)>, b: seq<(string, V)>)
    requires Valid(d)
    ensures PutAll(d, a + b) == PutAll(PutAll(d, a), b)
    decreases |b|
  {
    if b == [] {
      assert a + b == a;
    } else {
      var n := |b|;
      assert (a + b)[..|a + b| - 1] == a + b[..n - 1];
      assert (a + b)[|a + b| - 1] == b[n - 1];
      PutAllAppend(d, a, b[..n - 1]);
    }
  }

  /** The number of entries, `len(d)`, is the number of keys in the order. */
  lemma {:induction false} ValidSize<V>(d: ODict<V>)
    requires Valid(d)
    ensures |d.vals| == |d.keys|
    decreases |d.keys|
  {
    if d.keys == [] {
      assert d.vals == map[];
    } else {
      var n := |d.keys|;
      var x := d.keys[n - 1];
      var ks := d.keys[..n - 1];
      var rest := map j | j in d.vals && j != x :: d.vals[j];
      assert forall j :: j in d.keys <==> j == x || j in ks;
      assert x !in ks by {
        forall i | 0 <= i < n - 1
          ensures ks[i] != x
        {
          assert d.keys[i] != d.keys[n - 1];
        }
      }
      ValidSize(ODict(ks, rest));
      assert d.vals.Keys == rest.Keys + {x};
    }
  }

  // ---------------------------------------------------------------------------
  // What a run of assignments leaves behind

  function Ids<V>(ps: seq<(string, V)>): (ids: seq<string>)
    ensures |ids| == |ps|
    ensures forall i | 0 <= i < |ps| :: ids[i] == ps[i].0
    decreases |ps|
  {
    if ps == [] then [] else Ids(ps[..|ps| - 1]) + [ps[|ps| - 1].0]
  }

  /** The index of the first occurrence of `k`. */
  function FirstIndex(ids: seq<string>, k: string): (i: nat)
    requires k in ids
    ensures i < |ids| && ids[i] == k && k !in ids[..i]
    decreases |ids|
  {
    if ids[0] == k then 0
    else
      var i := FirstIndex(ids[1..], k);
      assert ids[..i + 1] == [ids[0]] + ids[1..][..i];
      1 + i
  }

  /** The value of the last pair with key `k`. */
  function LastValue<V>(ps: seq<(string, V)>, k: string): V
    requires k in Ids(ps)
    decreases |ps|
  {
    var n := |ps|;
    if ps[n - 1].0 == k then ps[n - 1].1
    else
      assert k in Ids(ps[..n - 1]) by {
        var i :| 0 <= i < n && Ids(ps)[i] == k;
        assert i < n - 1 && Ids(ps[..n - 1])[i] == k;
      }
      LastValue(ps[..n - 1], k)
  }

  /** `LastValue` is the value of a pair with key `k` after which `k` does not occur. */
  lemma {:induction false} LastValueIsLast<V>(ps: seq<(string, V)>, k: string)
    requires k in Ids(ps)
    ensures exists i | 0 <= i < |ps| :: ps[i] == (k, LastValue(ps, k)) && forall j | i < j < |ps| :: ps[j].0 != k
    decreases |ps|
  {
    var n := |ps|;
    if ps[n - 1].0 == k {
      assert ps[n - 1] == (k, LastValue(ps, k));
    } else {
      var pre := ps[..n - 1];
      assert k in Ids(pre) by {
        var i :| 0 <= i < n && Ids(ps)[i] == k;
        assert i < n - 1 && Ids(pre)[i] == k;
      }
      LastValueIsLast(pre, k);
      var i :| 0 <= i < |pre| && pre[i] == (k, LastValue(pre, k)) && forall j | i < j < |pre| :: pre[j].0 != k;
      assert ps[i] == (k, LastValue(ps, k));
      assert forall j | i < j < n :: ps[j].0 != k by {
        forall j | i < j < n
          ensures ps[j].0 != k
        {
          if j < n - 1 {
            assert ps[j] == pre[j];
          }
        }
      }
    }
  }

  lemma FirstIndexSnoc(ids: seq<string>, x: string, k: string)
    requires k in ids
    ensures k in ids + [x] && FirstIndex(ids + [x], k) == FirstIndex(ids, k)
  {
    var i, j := FirstIndex(ids, k), FirstIndex(ids + [x], k);
    var u := ids + [x];
    assert u[i] == k;
    assert j <= i by {
      assert forall t | 0 <= t < j :: u[..j][t] == u[t];
    }
    assert u[..i] == ids[..i];
  }

  lemma FirstIndexNew(ids: seq<string>, x: string)
    requires x !in ids
    ensures x in ids + [x] && FirstIndex(ids + [x], x) == |ids|
  {
    var u := ids + [x];
    var j := FirstIndex(u, x);
    assert forall t | 0 <= t < |ids| :: u[t] == ids[t];
  }

  /** After assigning the pairs `ps` into an empty dict, its keys are exactly the keys of `ps`. */
  lemma {:induction false} PutAllKeys<V>(ps: seq<(string, V)>)
    ensures forall k :: k in PutAll(Empty(), ps).vals <==> k in Ids(ps)
    decreases |ps|
  {
    if ps != [] {
      var n := |ps|;
      PutAllKeys(ps[..n - 1]);
      assert Ids(ps) == Ids(ps[..n - 1]) + [ps[n - 1].0];
    }
  }

  /** Each key holds the value of its last assignment. */
  lemma {:induction false} PutAllValues<V>(ps: seq<(string, V)>)
    ensures forall k | k in PutAll(Empty(), ps).vals :: k in Ids(ps) && PutAll(Empty(), ps).vals[k] == LastValue(ps, k)
    decreases |ps|
  {
    PutAllKeys(ps);
    if ps != [] {
      var n := |ps|;
      var pre := ps[..n - 1];
      PutAllValues(pre);
      PutAllKeys(pre);
      var d := PutAll(Empty(), pre);
      var r := PutAll(Empty(), ps);
      assert r == Put(d, ps[n - 1].0, ps[n - 1].1);
      forall k | k in r.vals
        ensures r.vals[k] == LastValue(ps, k)
      {
        if k != ps[n - 1].0 {
          assert k in d.vals;
        }
      }
    }
  }

  /** Every key of `ks` occurs in `ids`, and `ks` lists them by where they first occur. */
  predicate FirstOrdered(ids: seq<string>, ks: seq<string>) {
    forall i, j | 0 <= i < j < |ks| ::
      ks[i] in ids && ks[j] in ids && FirstIndex(ids, ks[i]) < FirstIndex(ids, ks[j])
  }

  /** Keys stand in the order of their first assignment. */
  lemma {:induction false} PutAllOrder<V>(ps: seq<(string, V)>)
    ensures FirstOrdered(Ids(ps), PutAll(Empty(), ps).keys)
    decreases |ps|
  {
    if ps != [] {
      var n := |ps|;
      var pre := ps[..n - 1];
      PutAllOrder(pre);
      PutAllKeys(pre);
      var d := PutAll(Empty(), pre);
      assert PutAll(Empty(), ps) == Put(d, ps[n - 1].0, ps[n - 1].1);
      assert Ids(ps) == Ids(pre) + [ps[n - 1].0];
      PutOrder(Ids(pre), d, ps[n - 1].0, ps[n - 1].1);
    }
  }

  /** Assigning `x` after the keys `ids` keeps the keys in first-occurrence order. */
  lemma PutOrder<V>(ids: seq<string>, d: ODict<V>, x: string, v: V)
    requires Valid(d) && (forall k :: k in d.vals <==> k in ids) && FirstOrdered(ids, d.keys)
    ensures FirstOrdered(ids + [x], Put(d, x, v).keys)
  {
    var r := Put(d, x, v);
    assert forall k :: k in d.keys <==> k in ids;
    assert r.keys == if x in ids then d.keys else d.keys + [x];
    forall i, j | 0 <= i < j < |r.keys|
      ensures r.keys[i] in ids + [x] && r.keys[j] in ids + [x]
      ensures FirstIndex(ids + [x], r.keys[i]) < FirstIndex(ids + [x], r.keys[j])
    {
      OrderStep(ids, x, d.keys, r.keys, i, j);
    }
  }

  /** One more assignment keeps the first-occurrence order of the keys. */
  lemma OrderStep(ids: seq<string>, x: string, ks: seq<string>, ks': seq<string>, i: nat, j: nat)
    requires forall k :: k in ks <==> k in ids
    requires FirstOrdered(ids, ks)
    requires ks' == if x in ids then ks else ks + [x]
    requires i < j < |ks'|
    ensures ks'[i] in ids + [x] && ks'[j] in ids + [x]
    ensures FirstIndex(ids + [x], ks'[i]) < FirstIndex(ids + [x], ks'[j])
  {
    assert ks'[i] == ks[i];
    FirstIndexSnoc(ids, x, ks[i]);
    if j < |ks| {
      assert ks'[j] == ks[j];
      FirstIndexSnoc(ids, x, ks[j]);
    } else {
      FirstIndexNew(ids, x);
    }
  }
}
