/** A table keyed by a PRIMARY KEY column, as a map from key to the rest of
    the row. Both inventories write it the same way: look the key up, then
    update the row in place or insert a new one. */
module Table {

  /** The table after writing row `v` under key `k`. */
  function Upsert<K, V>(m: map<K, V>, k: K, v: V): (m': map<K, V>)
    ensures k in m' && m'[k] == v
    ensures m'.Keys == m.Keys + {k}
    ensures forall j :: j in m && j != k ==> m'[j] == m[j]
  {
    m[k := v]
  }

  /** The table gains a row exactly when the key was absent; otherwise the
      existing row is replaced and the row count stays. */
  lemma UpsertSize<K, V>(m: map<K, V>, k: K, v: V)
    ensures |Upsert(m, k, v)| == if k in m then |m| else |m| + 1
  {
    var m' := Upsert(m, k, v);
    if k in m {
      assert m'.Keys == m.Keys;
    } else {
      assert m'.Keys == m.Keys + {k};
      assert |m.Keys + {k}| == |m.Keys| + 1;
    }
  }

  /** The table after writing the same row `v` under each key of `ks`, in order. */
  function UpsertAll<K, V>(m: map<K, V>, ks: seq<K>, v: V): map<K, V>
  {
    if ks == [] then m else Upsert(UpsertAll(m, ks[..|ks| - 1], v), ks[|ks| - 1], v)
  }

  /** Writing `v` under the keys `ks` touches those keys and no others. */
  lemma {:induction false} UpsertAllAt<K, V>(m: map<K, V>, ks: seq<K>, v: V, k: K)
    ensures k in UpsertAll(m, ks, v) <==> k in m || k in ks
    ensures k in ks ==> UpsertAll(m, ks, v)[k] == v
    ensures k !in ks && k in m ==> UpsertAll(m, ks, v)[k] == m[k]
  {
    if ks != [] {
      var init := ks[..|ks| - 1];
      assert ks == init + [ks[|ks| - 1]];
      UpsertAllAt(m, init, v, k);
    }
  }

  /** `m` is `m0` with `v` written under every key of `ks`, and nothing else changed. */
  ghost predicate WritesAll<K(!new), V>(m0: map<K, V>, ks: seq<K>, v: V, m: map<K, V>)
  {
    (forall k :: k in m <==> k in m0 || k in ks) &&
    (forall k :: k in ks ==> k in m && m[k] == v) &&
    (forall k :: k in m0 && k !in ks ==> k in m && m[k] == m0[k])
  }

  /** The description `WritesAll` determines the table: it is `UpsertAll`. */
  lemma WritesAllIsUpsertAll<K(!new), V>(m0: map<K, V>, ks: seq<K>, v: V, m: map<K, V>)
    requires WritesAll(m0, ks, v, m)
    ensures m == UpsertAll(m0, ks, v)
  {
    var u := UpsertAll(m0, ks, v);
    forall k
      ensures k in m <==> k in u
      ensures k in m ==> m[k] == u[k]
    {
      UpsertAllAt(m0, ks, v, k);
    }
  }

  /** Two rounds of writes compose into one over the concatenated keys. */
  lemma WritesAllAppend<K(!new), V>(m0: map<K, V>, a: seq<K>, m1: map<K, V>, b: seq<K>, v: V, m2: map<K, V>)
    requires WritesAll(m0, a, v, m1) && WritesAll(m1, b, v, m2)
    ensures WritesAll(m0, a + b, v, m2)
  {
    forall k
      ensures k in a + b <==> k in a || k in b
    {
    }
  }
}
