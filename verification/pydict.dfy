/**
 * A Python `dict` with integer keys: a key-to-value map together with the
 * order in which the keys were first inserted. Assigning to a key that is
 * already present keeps its position; `pop` removes the key from the order.
 */
module PyDict {
  import opened Wrappers

  datatype IntDict<V> = IntDict(entries: map<int, V>, order: seq<int>)

  /** The insertion order lists every key exactly once and nothing else. */
  ghost predicate Consistent<V>(d: IntDict<V>) {
    && (forall i :: 0 <= i < |d.order| ==> d.order[i] in d.entries)
    && (forall k :: k in d.entries ==> k in d.order)
    && Distinct(d.order)
  }

  ghost predicate Distinct(ks: seq<int>) {
    forall i, j :: 0 <= i < j < |ks| ==> ks[i] != ks[j]
  }

  /** Keys in strictly increasing insertion order. */
  ghost predicate Ascending(ks: seq<int>) {
    forall i, j :: 0 <= i < j < |ks| ==> ks[i] < ks[j]
  }

  function Empty<V>(): (d: IntDict<V>)
    ensures Consistent(d) && |d.entries| == 0 && d.order == []
  {
    IntDict(map[], [])
  }

  /** `d.get(k)`. */
  function Get<V>(d: IntDict<V>, k: int): (r: Option<V>)
    ensures r.Some? <==> k in d.entries
    ensures r.Some? ==> r.value == d.entries[k]
  {
    if k in d.entries then Some(d.entries[k]) else None
  }

  /** `d[k] = v`: a new key goes to the end of the order, an existing key keeps its place. */
  function Put<V>(d: IntDict<V>, k: int, v: V): (r: IntDict<V>)
    ensures r.entries == d.entries[k := v]
    ensures k in d.entries ==> r.order == d.order
    ensures k !in d.entries ==> r.order == d.order + [k]
    ensures Consistent(d) ==> Consistent(r)
  {
    if k in d.entries then IntDict(d.entries[k := v], d.order)
    else IntDict(d.entries[k := v], d.order + [k])
  }

  /** The order with every occurrence of `k` removed, the rest in place. */
  function Without(ks: seq<int>, k: int): (r: seq<int>)
    ensures forall x :: x in r <==> x in ks && x != k
    ensures |r| <= |ks|
    ensures Ascending(ks) ==> Ascending(r)
    ensures Distinct(ks) ==> Distinct(r)
  {
    if |ks| == 0 then []
    else if ks[0] == k then Without(ks[1..], k)
    else
      var rest := Without(ks[1..], k);
      WithoutStep(ks, rest);
      [ks[0]] + rest
  }

  /** Keeping the head in front of the filtered tail keeps the order ascending and distinct. */
  lemma WithoutStep(ks: seq<int>, rest: seq<int>)
    requires |ks| > 0
    requires forall x :: x in rest ==> x in ks[1..]
    requires Ascending(ks[1..]) ==> Ascending(rest)
    requires Distinct(ks[1..]) ==> Distinct(rest)
    ensures Ascending(ks) ==> Ascending([ks[0]] + rest)
    ensures Distinct(ks) ==> Distinct([ks[0]] + rest)
  {
    var r := [ks[0]] + rest;
    if Ascending(ks) {
      assert Ascending(ks[1..]);
      forall x | x in rest ensures ks[0] < x {
        var j :| 0 <= j < |ks[1..]| && ks[1..][j] == x;
        assert ks[j + 1] == x;
      }
      forall i, j | 0 <= i < j < |r| ensures r[i] < r[j] {
        assert r[j] == rest[j - 1] && rest[j - 1] in rest;
        if i > 0 {
          assert r[i] == rest[i - 1];
        }
      }
    }
    if Distinct(ks) {
      assert Distinct(ks[1..]);
      forall x | x in rest ensures ks[0] != x {
        var j :| 0 <= j < |ks[1..]| && ks[1..][j] == x;
        assert ks[j + 1] == x;
      }
      forall i, j | 0 <= i < j < |r| ensures r[i] != r[j] {
        assert r[j] == rest[j - 1] && rest[j - 1] in rest;
        if i > 0 {
          assert r[i] == rest[i - 1];
        }
      }
    }
  }

  /** `d.pop(k, None)`: the dictionary without `k`, and the value that was removed if any. */
  function Pop<V>(d: IntDict<V>, k: int): (r: (IntDict<V>, Option<V>))
    ensures r.0.entries == d.entries - {k}
    ensures r.1 == Get(d, k)
    ensures Consistent(d) ==> Consistent(r.0)
    ensures Ascending(d.order) ==> Ascending(r.0.order)
  {
    var order := Without(d.order, k);
    assert forall i :: 0 <= i < |order| ==> order[i] in order;
    (IntDict(d.entries - {k}, order), Get(d, k))
  }

  /** `d.get(j)` after `d[k] = v`: `v` under `k`, every other key as before. */
  lemma GetAfterPut<V>(d: IntDict<V>, k: int, v: V, j: int)
    ensures Get(Put(d, k, v), j) == if j == k then Some(v) else Get(d, j)
  {
  }

  /** `d.get(j)` after `d.pop(k, None)`: nothing under `k`, every other key as before. */
  lemma GetAfterPop<V>(d: IntDict<V>, k: int, j: int)
    ensures Get(Pop(d, k).0, j) == if j == k then None else Get(d, j)
  {
  }

  /** `list(d.values())`: the values in key-insertion order. */
  function Values<V>(d: IntDict<V>): (r: seq<V>)
    requires Consistent(d)
    ensures |r| == |d.order|
    ensures forall i :: 0 <= i < |r| ==> r[i] == d.entries[d.order[i]]
  {
    seq(|d.order|, i requires 0 <= i < |d.order| => d.entries[d.order[i]])
  }

  /**
   * `list(d.values())` after `d[k] = v`: a new key's value comes last, behind
   * all the others; an existing key's value is replaced in its own slot and
   * every other slot is as before.
   */
  lemma ValuesAfterPut<V>(d: IntDict<V>, k: int, v: V)
    requires Consistent(d)
    ensures k !in d.entries ==> Values(Put(d, k, v)) == Values(d) + [v]
    ensures k in d.entries ==>
      && |Values(Put(d, k, v))| == |Values(d)|
      && forall i :: 0 <= i < |Values(d)| ==> Values(Put(d, k, v))[i] == if d.order[i] == k then v else Values(d)[i]
  {
    var e := Put(d, k, v);
    assert Consistent(e);
    if k !in d.entries {
      forall i | 0 <= i < |d.order| ensures Values(e)[i] == Values(d)[i] {
        assert d.order[i] in d.entries;
      }
    }
  }
}
