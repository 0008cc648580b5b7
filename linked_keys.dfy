/** The key order of a java.util.LinkedHashMap in insertion-order mode.
    A `put` of a new key appends it; a `put` of a key already present keeps
    the key where it is; a `remove` drops the key and leaves the others in
    their relative order. The values live in an ordinary `map` beside it. */
module LinkedKeys {

  /** No key occurs twice. */
  predicate Distinct(s: seq<string>)
  {
    forall i, j :: 0 <= i < j < |s| ==> s[i] != s[j]
  }

  /** `order` is an initial part of `longer`. */
  predicate IsPrefix(order: seq<string>, longer: seq<string>)
  {
    |order| <= |longer| && longer[..|order|] == order
  }

  /** `order` lists the key set `keys`, each key exactly once. */
  predicate Lists(order: seq<string>, keys: set<string>)
    decreases |order|
  {
    if order == [] then keys == {}
    else order[0] in keys && Lists(order[1..], keys - {order[0]})
  }

  /** A key is in a listing exactly when it is in the listed set. */
  lemma {:induction false} ListsHas(order: seq<string>, keys: set<string>, x: string)
    requires Lists(order, keys)
    ensures x in order <==> x in keys
    decreases |order|
  {
    if order != [] {
      ListsHas(order[1..], keys - {order[0]}, x);
      assert order == [order[0]] + order[1..];
    }
  }

  /** A listing holds exactly the keys it lists. */
  lemma ListsContents(order: seq<string>, keys: set<string>)
    requires Lists(order, keys)
    ensures forall x :: x in order <==> x in keys
  {
    forall x {
      ListsHas(order, keys, x);
    }
  }

  /** Every position of a listing holds a listed key. */
  lemma ListsIndexed(order: seq<string>, keys: set<string>)
    requires Lists(order, keys)
    ensures forall i :: 0 <= i < |order| ==> order[i] in keys
  {
    forall i | 0 <= i < |order| {
      ListsHas(order, keys, order[i]);
    }
  }

  /** A listing holds no key twice. */
  lemma {:induction false} ListsDistinct(order: seq<string>, keys: set<string>)
    requires Lists(order, keys)
    ensures Distinct(order)
    decreases |order|
  {
    if order != [] {
      ListsDistinct(order[1..], keys - {order[0]});
      forall i, j | 0 <= i < j < |order|
        ensures order[i] != order[j]
      {
        if i > 0 {
          assert order[i] == order[1..][i - 1] && order[j] == order[1..][j - 1];
        } else {
          assert order[j] in order[1..];
          ListsHas(order[1..], keys - {order[0]}, order[j]);
        }
      }
    }
  }

  /** Key order after `put(k, v)`. */
  function Put(order: seq<string>, k: string): (r: seq<string>)
    ensures |order| <= |r| && r[..|order|] == order
    ensures |r| <= |order| + 1
  {
    if k in order then order else order + [k]
  }

  /** A `put` never moves the keys already there. */
  lemma PutExtends(base: seq<string>, order: seq<string>, k: string)
    requires IsPrefix(base, order)
    ensures IsPrefix(base, Put(order, k))
  {
    var r := Put(order, k);
    assert r[..|order|] == order;
    assert r[..|base|] == r[..|order|][..|base|];
  }

  /** `put(k, v)` lists the key set with `k` added. */
  lemma {:induction false} ListsPut(order: seq<string>, keys: set<string>, k: string)
    requires Lists(order, keys)
    ensures Lists(Put(order, k), keys + {k})
  {
    ListsHas(order, keys, k);
    if k in keys {
      assert keys + {k} == keys;
    } else {
      ListsAppend(order, keys, k);
    }
  }

  /** Putting a key not yet listed appends it to the listing. */
  lemma {:induction false} ListsAppend(order: seq<string>, keys: set<string>, k: string)
    requires Lists(order, keys) && k !in keys
    ensures Lists(order + [k], keys + {k})
    decreases |order|
  {
    var r := order + [k];
    if order == [] {
      assert r[1..] == [] && keys + {k} - {k} == {};
    } else {
      assert r[0] == order[0] && r[1..] == order[1..] + [k];
      assert keys + {k} - {order[0]} == (keys - {order[0]}) + {k};
      ListsAppend(order[1..], keys - {order[0]}, k);
    }
  }

  /** Key order after `remove(k)`. */
  function Remove(order: seq<string>, k: string): (r: seq<string>)
    ensures Distinct(order) ==> Distinct(r)
    ensures forall x :: x in r <==> x in order && x != k
    ensures |r| <= |order|
  {
    if order == [] then []
    else if order[0] == k then Remove(order[1..], k)
    else
      var rest := Remove(order[1..], k);
      assert Distinct(order) ==> order[0] !in order[1..] && Distinct(order[1..]);
      [order[0]] + rest
  }

  /** `remove(k)` lists the key set without `k`. */
  lemma {:induction false} ListsRemove(order: seq<string>, keys: set<string>, k: string)
    requires Lists(order, keys)
    ensures Lists(Remove(order, k), keys - {k})
    decreases |order|
  {
    if order != [] {
      ListsRemove(order[1..], keys - {order[0]}, k);
      if order[0] == k {
        assert keys - {order[0]} - {k} == keys - {k};
      } else {
        var r := Remove(order, k);
        assert r[0] == order[0] && r[1..] == Remove(order[1..], k);
        assert keys - {order[0]} - {k} == keys - {k} - {order[0]};
      }
    }
  }

  /** Removing a key that was never there changes nothing. */
  lemma {:induction false} RemoveAbsent(order: seq<string>, k: string)
    requires k !in order
    ensures Remove(order, k) == order
  {
    if order != [] {
      RemoveAbsent(order[1..], k);
    }
  }

  /** Removing a key just put (when it was new) restores the old order. */
  lemma {:induction false} RemoveAfterPut(order: seq<string>, k: string)
    requires k !in order
    ensures Remove(Put(order, k), k) == order
  {
    var put := order + [k];
    assert Put(order, k) == put;
    if order == [] {
      assert put[1..] == [];
    } else {
      assert put[0] == order[0] && put[1..] == order[1..] + [k];
      RemoveAfterPut(order[1..], k);
    }
  }

  /** Removing a key keeps every other key's relative order: `Remove`
      yields a subsequence of the old order. */
  lemma {:induction false} RemoveKeepsOrder(order: seq<string>, k: string, i: nat, j: nat)
    requires Distinct(order)
    requires i < j < |order| && order[i] != k && order[j] != k
    ensures exists p, q :: 0 <= p < q < |Remove(order, k)|
                        && Remove(order, k)[p] == order[i] && Remove(order, k)[q] == order[j]
  {
    var r := Remove(order, k);
    if order[0] == k {
      RemoveKeepsOrder(order[1..], k, i - 1, j - 1);
    } else if i == 0 {
      var rest := Remove(order[1..], k);
      assert order[j] in order[1..];
      assert order[j] in rest;
      var q' :| 0 <= q' < |rest| && rest[q'] == order[j];
      assert r[0] == order[0] && r[q' + 1] == order[j];
    } else {
      RemoveKeepsOrder(order[1..], k, i - 1, j - 1);
      var rest := Remove(order[1..], k);
      var p', q' :| 0 <= p' < q' < |rest| && rest[p'] == order[i] && rest[q'] == order[j];
      assert r[p' + 1] == order[i] && r[q' + 1] == order[j];
    }
  }
}
