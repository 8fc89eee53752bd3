/**
 * A JavaScript `Map` with string keys: its entries together with the order
 * in which their keys were first inserted, which is the order `values()`
 * lists them in.  Setting an existing key replaces its value in place;
 * deleting a key removes it from the order.
 */
module JsMap {
  import opened Wrappers

  datatype OrderedMap<V> = OrderedMap(keys: seq<string>, entries: map<string, V>)
  {
    /** Every key occurs once in the order, and the order lists exactly the entries' keys. */
    ghost predicate Valid() {
      Distinct(keys) && (forall k :: k in entries <==> k in keys)
    }

    /** `get`. */
    function Get(k: string): (r: Option<V>)
      ensures r.Some? <==> k in entries
      ensures r.Some? ==> r.value == entries[k]
    {
      if k in entries then Some(entries[k]) else None
    }

    /** `set`: a new key goes to the end of the order, an existing one keeps its place. */
    function Set(k: string, v: V): (m: OrderedMap<V>)
      ensures m.entries == entries[k := v]
      ensures k in entries ==> m.keys == keys
      ensures k !in entries ==> m.keys == keys + [k]
    {
      OrderedMap(if k in entries then keys else keys + [k], entries[k := v])
    }

    /** `delete`: the map without `k`; `delete` returns whether `k` was present. */
    function Delete(k: string): (m: OrderedMap<V>)
      ensures m.entries == entries - {k}
      ensures forall x :: x in m.keys <==> x in keys && x != k
    {
      OrderedMap(Remove(keys, k), entries - {k})
    }

    /** `Array.from(values())`. */
    function Values(): (r: seq<V>)
      requires Valid()
      ensures |r| == |keys|
      ensures forall i :: 0 <= i < |keys| ==> r[i] == entries[keys[i]]
    {
      ValuesOf(keys, entries)
    }
  }

  /** No key occurs twice. */
  ghost predicate Distinct(keys: seq<string>) {
    forall i, j :: 0 <= i < j < |keys| ==> keys[i] != keys[j]
  }

  /** The empty map. */
  function Empty<V>(): (m: OrderedMap<V>)
    ensures m.Valid() && m.Values() == []
  {
    OrderedMap([], map[])
  }

  /** `keys` without `k`. */
  function Remove(keys: seq<string>, k: string): (r: seq<string>)
    ensures forall x :: x in r <==> x in keys && x != k
  {
    if keys == [] then []
    else (if keys[0] == k then [] else [keys[0]]) + Remove(keys[1..], k)
  }

  /** The values of `entries` at `keys`, in that order. */
  function ValuesOf<V>(keys: seq<string>, entries: map<string, V>): (r: seq<V>)
    requires forall k :: k in keys ==> k in entries
    ensures |r| == |keys|
    ensures forall i :: 0 <= i < |keys| ==> r[i] == entries[keys[i]]
  {
    if keys == [] then [] else [entries[keys[0]]] + ValuesOf(keys[1..], entries)
  }

  /** Values only depend on the entries at the listed keys. */
  lemma {:induction false} ValuesOfSame<V>(keys: seq<string>, e1: map<string, V>, e2: map<string, V>)
    requires forall k :: k in keys ==> k in e1 && k in e2 && e1[k] == e2[k]
    ensures ValuesOf(keys, e1) == ValuesOf(keys, e2)
  {
    if keys != [] {
      ValuesOfSame(keys[1..], e1, e2);
    }
  }

  /** Values of a concatenation of key lists. */
  lemma {:induction false} ValuesOfConcat<V>(a: seq<string>, b: seq<string>, entries: map<string, V>)
    requires forall k :: k in a + b ==> k in entries
    ensures ValuesOf(a + b, entries) == ValuesOf(a, entries) + ValuesOf(b, entries)
  {
    if a == [] {
      assert a + b == b;
    } else {
      assert (a + b)[0] == a[0];
      assert (a + b)[1..] == a[1..] + b;
      ValuesOfConcat(a[1..], b, entries);
    }
  }

  /** Removing a key that occurs once, at position `i`. */
  lemma {:induction false} RemoveAt(keys: seq<string>, k: string, i: nat)
    requires i < |keys| && keys[i] == k
    requires forall j :: 0 <= j < |keys| && j != i ==> keys[j] != k
    ensures Remove(keys, k) == keys[..i] + keys[i + 1..]
  {
    if i == 0 {
      RemoveAbsent(keys[1..], k);
    } else {
      RemoveAt(keys[1..], k, i - 1);
      assert keys[1..][..i - 1] == keys[1..i];
      assert keys[1..][i..] == keys[i + 1..];
      assert keys[..i] == [keys[0]] + keys[1..i];
    }
  }

  /** Removing a key that does not occur changes nothing. */
  lemma {:induction false} RemoveAbsent(keys: seq<string>, k: string)
    requires k !in keys
    ensures Remove(keys, k) == keys
  {
    if keys != [] {
      RemoveAbsent(keys[1..], k);
      assert keys == [keys[0]] + keys[1..];
    }
  }

  /** Keys without repetition stay without repetition after a removal. */
  lemma {:induction false} RemoveDistinct(keys: seq<string>, k: string)
    requires Distinct(keys)
    ensures Distinct(Remove(keys, k))
  {
    if keys != [] {
      assert Distinct(keys[1..]) by {
        assert forall i :: 0 <= i < |keys| - 1 ==> keys[1..][i] == keys[i + 1];
      }
      RemoveDistinct(keys[1..], k);
      var rest := Remove(keys[1..], k);
      assert keys[0] !in keys[1..];
      assert keys[0] !in rest;
      if keys[0] != k {
        var r := [keys[0]] + rest;
        assert forall i :: 1 <= i < |r| ==> r[i] == rest[i - 1];
      }
    }
  }

  // ---------------------------------------------------------------------------
  // What each operation does to a valid map
  // ---------------------------------------------------------------------------

  /** `set` keeps the map valid; `get` then sees the new value and every other entry as before. */
  lemma {:induction false} SetValid<V>(m: OrderedMap<V>, k: string, v: V)
    requires m.Valid()
    ensures m.Set(k, v).Valid()
    ensures m.Set(k, v).Get(k) == Some(v)
    ensures forall x :: x != k ==> m.Set(k, v).Get(x) == m.Get(x)
  {
    var s := m.Set(k, v);
    if k !in m.entries {
      assert forall i :: 0 <= i < |m.keys| ==> s.keys[i] == m.keys[i];
      assert s.keys[|m.keys|] == k;
    }
  }

  /** Setting a new key appends its value to the listing. */
  lemma {:induction false} SetFreshAppends<V>(m: OrderedMap<V>, k: string, v: V)
    requires m.Valid() && k !in m.entries
    ensures m.Set(k, v).Valid()
    ensures m.Set(k, v).Values() == m.Values() + [v]
  {
    SetValid(m, k, v);
    var e := m.entries[k := v];
    ValuesOfConcat(m.keys, [k], e);
    ValuesOfSame(m.keys, m.entries, e);
  }

  /** Setting an existing key replaces its value where it stands in the listing. */
  lemma {:induction false} SetExistingInPlace<V>(m: OrderedMap<V>, k: string, v: V, i: nat)
    requires m.Valid() && i < |m.keys| && m.keys[i] == k
    ensures m.Set(k, v).Valid()
    ensures m.Set(k, v).Values() == m.Values()[i := v]
  {
    SetValid(m, k, v);
    var s := m.Set(k, v);
    forall j | 0 <= j < |m.keys|
      ensures s.Values()[j] == m.Values()[i := v][j]
    {
    }
  }

  /** After setting an existing key, the listing shows the new value at that key's position and the old values elsewhere. */
  lemma {:induction false} SetExistingListed<V>(m: OrderedMap<V>, k: string, v: V)
    requires m.Valid() && k in m.entries
    ensures m.Set(k, v).Valid() && m.Set(k, v).keys == m.keys
    ensures |m.Set(k, v).Values()| == |m.Values()|
    ensures forall i :: 0 <= i < |m.keys| ==> m.Set(k, v).Values()[i] == if m.keys[i] == k then v else m.Values()[i]
  {
    SetValid(m, k, v);
    var s := m.Set(k, v);
    forall j | 0 <= j < |m.keys|
      ensures s.Values()[j] == if m.keys[j] == k then v else m.Values()[j]
    {
      assert s.Values()[j] == s.entries[m.keys[j]];
    }
  }

  /** `delete` keeps the map valid and removes exactly `k`. */
  lemma {:induction false} DeleteValid<V>(m: OrderedMap<V>, k: string)
    requires m.Valid()
    ensures m.Delete(k).Valid()
    ensures m.Delete(k).Get(k) == None
    ensures forall x :: x != k ==> m.Delete(k).Get(x) == m.Get(x)
  {
    RemoveDistinct(m.keys, k);
  }

  /** Deleting the key at position `i` drops the `i`-th value and keeps the others in order. */
  lemma {:induction false} DeleteAt<V>(m: OrderedMap<V>, k: string, i: nat)
    requires m.Valid() && i < |m.keys| && m.keys[i] == k
    ensures m.Delete(k).Valid()
    ensures m.Delete(k).Values() == m.Values()[..i] + m.Values()[i + 1..]
  {
    DeleteValid(m, k);
    var d := m.Delete(k);
    RemoveAt(m.keys, k, i);
    var expected := m.Values()[..i] + m.Values()[i + 1..];
    forall j | 0 <= j < |d.keys|
      ensures d.Values()[j] == expected[j]
    {
      if j < i {
        assert d.keys[j] == m.keys[j];
      } else {
        assert d.keys[j] == m.keys[j + 1];
      }
    }
  }

  /** Deleting a present key drops its value from the listing and keeps the others in order. */
  lemma {:induction false} DeleteListed<V>(m: OrderedMap<V>, k: string)
    requires m.Valid() && k in m.entries
    ensures m.Delete(k).Valid()
    ensures exists i :: 0 <= i < |m.keys| && m.Values()[i] == m.entries[k]
                        && m.Delete(k).Values() == m.Values()[..i] + m.Values()[i + 1..]
  {
    var i :| 0 <= i < |m.keys| && m.keys[i] == k;
    DeleteAt(m, k, i);
  }

  /** `get` finds `v` under `k` exactly when the listing shows `v` at the position of `k`. */
  lemma {:induction false} GetListed<V>(m: OrderedMap<V>, k: string, v: V)
    requires m.Valid()
    ensures m.Get(k) == Some(v) <==> exists i :: 0 <= i < |m.keys| && m.keys[i] == k && m.Values()[i] == v
  {
    if m.Get(k) == Some(v) {
      var i :| 0 <= i < |m.keys| && m.keys[i] == k;
      assert m.Values()[i] == v;
    }
  }

  /** Deleting an absent key changes nothing. */
  lemma {:induction false} DeleteAbsent<V>(m: OrderedMap<V>, k: string)
    requires m.Valid() && k !in m.entries
    ensures m.Delete(k) == m
  {
    RemoveAbsent(m.keys, k);
  }
}
