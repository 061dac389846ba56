/** uthash tables: entries in insertion order, one per key. */
module UtHash {
  datatype Entry<+K, +V> = Entry(key: K, val: V)
  type Table<+K, +V> = seq<Entry<K, V>>

  ghost predicate Unique<K, V>(t: Table<K, V>) {
    forall i, j :: 0 <= i < j < |t| ==> t[i].key != t[j].key
  }

  // HASH_FIND: the position of the first entry with key k, |t| if there is none.
  function Find<K(==), V>(t: Table<K, V>, k: K): (i: nat)
    ensures i <= |t|
    ensures i < |t| ==> t[i].key == k
    ensures forall j :: 0 <= j < i ==> t[j].key != k
  {
    if t == [] then 0
    else if t[0].key == k then 0
    else
      var i := 1 + Find(t[1..], k);
      assert forall j :: 1 <= j < i ==> t[j] == t[1..][j - 1];
      i
  }

  predicate Has<K(==), V>(t: Table<K, V>, k: K) {
    Find(t, k) < |t|
  }

  // HASH_ADD behind the lookup that every *_add function makes first.
  function Insert<K(==), V>(t: Table<K, V>, k: K, v: V): Table<K, V> {
    if Has(t, k) then t else t + [Entry(k, v)]
  }

  // Adding the entries of u one by one, in order.
  function InsertAll<K(==), V>(t: Table<K, V>, u: Table<K, V>): Table<K, V> {
    if u == [] then t
    else Insert(InsertAll(t, u[..|u| - 1]), u[|u| - 1].key, u[|u| - 1].val)
  }

  // The entries of u whose keys t lacks, in the order of u.
  function Missing<K(==), V>(u: Table<K, V>, t: Table<K, V>): Table<K, V> {
    if u == [] then []
    else Missing(u[..|u| - 1], t) + (if Has(t, u[|u| - 1].key) then [] else [u[|u| - 1]])
  }

  lemma {:induction false} HasIff<K, V>(t: Table<K, V>, k: K)
    ensures Has(t, k) <==> exists i :: 0 <= i < |t| && t[i].key == k
  {
  }

  lemma {:induction false} FindUnique<K, V>(t: Table<K, V>, i: nat)
    requires Unique(t) && i < |t|
    ensures Find(t, t[i].key) == i
  {
  }

  lemma {:induction false} InsertUnique<K, V>(t: Table<K, V>, k: K, v: V)
    requires Unique(t)
    ensures Unique(Insert(t, k, v)) && Has(Insert(t, k, v), k) && t <= Insert(t, k, v)
  {
    HasIff(t, k);
    HasIff(Insert(t, k, v), k);
    if !Has(t, k) {
      assert Insert(t, k, v)[|t|].key == k;
    }
  }

  lemma {:induction false} HasConcat<K, V>(a: Table<K, V>, b: Table<K, V>, k: K)
    ensures Has(a + b, k) <==> Has(a, k) || Has(b, k)
  {
    HasIff(a, k);
    HasIff(b, k);
    HasIff(a + b, k);
    if Has(a, k) {
      assert (a + b)[Find(a, k)] == a[Find(a, k)];
    }
    if Has(b, k) {
      assert (a + b)[|a| + Find(b, k)] == b[Find(b, k)];
    }
  }

  lemma {:induction false} HasLast<K, V>(u: Table<K, V>, k: K)
    requires u != []
    ensures Has(u, k) <==> Has(u[..|u| - 1], k) || u[|u| - 1].key == k
  {
    assert u == u[..|u| - 1] + [u[|u| - 1]];
    HasConcat(u[..|u| - 1], [u[|u| - 1]], k);
  }

  lemma {:induction false} UniqueAppend<K, V>(t: Table<K, V>, e: Entry<K, V>)
    requires Unique(t) && !Has(t, e.key)
    ensures Unique(t + [e])
  {
  }

  lemma {:induction false} LastNotBefore<K, V>(u: Table<K, V>)
    requires Unique(u) && u != []
    ensures Unique(u[..|u| - 1]) && !Has(u[..|u| - 1], u[|u| - 1].key)
  {
    HasIff(u[..|u| - 1], u[|u| - 1].key);
  }

  lemma {:induction false} HasMissing<K, V>(u: Table<K, V>, t: Table<K, V>, k: K)
    ensures Has(Missing(u, t), k) <==> Has(u, k) && !Has(t, k)
  {
    if u != [] {
      HasMissing(u[..|u| - 1], t, k);
      HasLast(u, k);
      var m := Missing(u[..|u| - 1], t);
      HasConcat(m, [u[|u| - 1]], k);
      assert m + [] == m;
    }
  }

  // An insertion is an addition at the end, for a new key only.
  lemma {:induction false} InsertIs<K, V>(t: Table<K, V>, k: K, v: V)
    ensures (exists i :: 0 <= i < |t| && t[i].key == k) ==> Insert(t, k, v) == t
    ensures (forall i :: 0 <= i < |t| ==> t[i].key != k) ==> Insert(t, k, v) == t + [Entry(k, v)]
  {
    HasIff(t, k);
  }

  // The missing entries stand in the order of the table they come from.
  lemma {:induction false} MissingOrder<K, V>(u: Table<K, V>, t: Table<K, V>, i: nat, j: nat)
    requires Unique(u) && i < j < |Missing(u, t)|
    ensures Find(u, Missing(u, t)[i].key) < Find(u, Missing(u, t)[j].key) < |u|
  {
    var m, v := Missing(u, t), u[..|u| - 1];
    LastNotBefore(u);
    FindUnique(u, |u| - 1);
    MissingFound(u, t, i);
    if j < |Missing(v, t)| {
      MissingOrder(v, t, i, j);
      FindPrefix(u, m[i].key);
      FindPrefix(u, m[j].key);
    } else {
      MissingFound(v, t, i);
      FindPrefix(u, m[i].key);
    }
  }

  lemma {:induction false} MissingFound<K, V>(u: Table<K, V>, t: Table<K, V>, i: nat)
    requires i < |Missing(u, t)|
    ensures Has(u, Missing(u, t)[i].key) && !Has(t, Missing(u, t)[i].key)
  {
    MissingFrom(u, t, Missing(u, t)[i]);
    HasIff(u, Missing(u, t)[i].key);
  }

  lemma {:induction false} FindPrefix<K, V>(u: Table<K, V>, k: K)
    requires u != [] && Has(u[..|u| - 1], k)
    ensures Find(u, k) == Find(u[..|u| - 1], k)
  {
    assert forall i :: 0 <= i < |u| - 1 ==> u[i] == u[..|u| - 1][i];
  }

  // Inserting a whole table is a left-biased union that keeps the order of both.
  lemma {:induction false} InsertAllIsUnion<K, V>(t: Table<K, V>, u: Table<K, V>)
    requires Unique(t) && Unique(u)
    ensures InsertAll(t, u) == t + Missing(u, t)
    ensures Unique(InsertAll(t, u))
    ensures forall k :: Has(InsertAll(t, u), k) <==> Has(t, k) || Has(u, k)
  {
    if u == [] {
      assert t + [] == t;
    } else {
      var v, last := u[..|u| - 1], u[|u| - 1];
      LastNotBefore(u);
      InsertAllIsUnion(t, v);
      InsertUnique(InsertAll(t, v), last.key, last.val);
      hide Find, Has, Insert, Unique;
      assert t + Missing(v, t) + [last] == t + (Missing(v, t) + [last]);
      assert t + (Missing(v, t) + []) == t + Missing(v, t);
      InsertLast(t, u);
    }
    forall k
      ensures Has(InsertAll(t, u), k) <==> Has(t, k) || Has(u, k)
    {
      HasConcat(t, Missing(u, t), k);
      HasMissing(u, t, k);
    }
  }

  lemma {:induction false} InsertLast<K, V>(t: Table<K, V>, u: Table<K, V>)
    requires u != []
    requires Has(InsertAll(t, u[..|u| - 1]), u[|u| - 1].key) <==> Has(t, u[|u| - 1].key)
    ensures InsertAll(t, u) == InsertAll(t, u[..|u| - 1]) + (if Has(t, u[|u| - 1].key) then [] else [u[|u| - 1]])
  {
    assert InsertAll(t, u[..|u| - 1]) + [] == InsertAll(t, u[..|u| - 1]);
  }

  lemma {:induction false} MissingFrom<K, V>(u: Table<K, V>, t: Table<K, V>, e: Entry<K, V>)
    ensures e in Missing(u, t) <==> e in u && !Has(t, e.key)
  {
    if u != [] {
      MissingFrom(u[..|u| - 1], t, e);
      assert u == u[..|u| - 1] + [u[|u| - 1]];
    }
  }

  lemma {:induction false} MissingNothing<K, V>(u: Table<K, V>, t: Table<K, V>)
    requires forall e :: e in u ==> Has(t, e.key)
    ensures Missing(u, t) == []
  {
    if u != [] {
      assert forall e :: e in u[..|u| - 1] ==> e in u;
      MissingNothing(u[..|u| - 1], t);
      assert u[|u| - 1] in u;
    }
  }

  // Repeating the union changes nothing.
  lemma {:induction false} InsertAllIdempotent<K, V>(t: Table<K, V>, u: Table<K, V>)
    requires Unique(t) && Unique(u)
    ensures InsertAll(InsertAll(t, u), u) == InsertAll(t, u)
  {
    var r := InsertAll(t, u);
    InsertAllIsUnion(t, u);
    InsertAllIsUnion(r, u);
    forall e | e in u ensures Has(r, e.key) {
      HasIff(u, e.key);
    }
    MissingNothing(u, r);
    assert r + [] == r;
  }

  lemma {:induction false} MissingFromNothing<K, V>(u: Table<K, V>)
    ensures Missing(u, []) == u
  {
    if u != [] {
      MissingFromNothing(u[..|u| - 1]);
      assert u == u[..|u| - 1] + [u[|u| - 1]];
    }
  }

  // Cloning: inserting a table into an empty one copies it.
  lemma {:induction false} InsertIntoEmpty<K, V>(u: Table<K, V>)
    requires Unique(u)
    ensures InsertAll([], u) == u
  {
    InsertAllIsUnion([], u);
    MissingFromNothing(u);
    assert [] + u == u;
  }

  // One step of an insertion loop.
  lemma {:induction false} InsertNext<K, V>(t: Table<K, V>, u: Table<K, V>, i: nat)
    requires i < |u|
    ensures InsertAll(t, u[..i + 1]) == Insert(InsertAll(t, u[..i]), u[i].key, u[i].val)
  {
    assert u[..i + 1][..i] == u[..i];
  }
}
