/** Writing a batch of values into a byte-keyed store, whatever the order of the writes. */
module Overlay {
  import opened Primitives

  ghost predicate Injective<K(!new)>(key: K -> Bytes) {
    forall x, y :: key(x) == key(y) ==> x == y
  }

  /** `base` with every value of `batch` written under its key. */
  ghost function Written<K(!new), V>(base: map<Bytes, V>, batch: map<K, V>, key: K -> Bytes): map<Bytes, V>
    requires Injective(key)
  {
    base + (map k | k in batch :: key(k) := batch[k])
  }

  lemma WrittenNothing<K(!new), V>(base: map<Bytes, V>, key: K -> Bytes)
    requires Injective(key)
    ensures Written(base, map[], key) == base
  {
  }

  lemma WrittenOneMore<K(!new), V>(base: map<Bytes, V>, batch: map<K, V>, key: K -> Bytes, k: K, v: V)
    requires Injective(key)
    ensures Written(base, batch[k := v], key) == Written(base, batch, key)[key(k) := v]
  {
  }

  lemma WrittenAt<K(!new), V>(base: map<Bytes, V>, batch: map<K, V>, key: K -> Bytes, k: K)
    requires Injective(key)
    ensures var r := Written(base, batch, key);
            if k in batch then key(k) in r && r[key(k)] == batch[k]
            else (key(k) in r <==> key(k) in base) && (key(k) in r ==> r[key(k)] == base[key(k)])
  {
  }

  /** Writing the same batch again, or writing what is already there, changes nothing. */
  lemma WrittenAgain<K(!new), V>(base: map<Bytes, V>, batch: map<K, V>, key: K -> Bytes)
    requires Injective(key)
    requires forall k :: k in batch ==> key(k) in base && base[key(k)] == batch[k]
    ensures Written(base, batch, key) == base
  {
  }

  // ----- Building a batch one element at a time -----

  ghost function MapValues<K, V, W>(m: map<K, V>, f: V -> W): map<K, W> {
    map k | k in m :: f(m[k])
  }

  lemma MapValuesOneMore<K, V, W>(m: map<K, V>, f: V -> W, k: K, v: V)
    ensures MapValues(m[k := v], f) == MapValues(m, f)[k := f(v)]
  {
  }

  lemma MapValuesEmpty<K, V, W>(f: V -> W)
    ensures MapValues<K, V, W>(map[], f) == map[]
  {
  }

  /** One row of a two-level map, under composite keys. */
  ghost function Row<A, B, V>(a: A, row: map<B, V>): map<(A, B), V> {
    map b | b in row :: (a, b) := row[b]
  }

  /** A two-level map under composite keys. */
  ghost function Flat<A, B, V>(m: map<A, map<B, V>>): map<(A, B), V> {
    map a, b | a in m && b in m[a] :: (a, b) := m[a][b]
  }

  lemma FlatAt<A, B, V>(m: map<A, map<B, V>>, a: A, b: B)
    ensures (a, b) in Flat(m) <==> a in m && b in m[a]
    ensures (a, b) in Flat(m) ==> Flat(m)[(a, b)] == m[a][b]
  {
  }

  lemma FlatOneMore<A(!new), B(!new), V>(m: map<A, map<B, V>>, a: A, row: map<B, V>)
    requires a !in m
    ensures Flat(m[a := row]) == Flat(m) + Row(a, row)
  {
    var l, r := Flat(m[a := row]), Flat(m) + Row(a, row);
    forall x: A, y: B
      ensures (x, y) in l <==> (x, y) in r
      ensures (x, y) in l ==> l[(x, y)] == r[(x, y)]
    {
      FlatAt(m[a := row], x, y);
      FlatAt(m, x, y);
      RowAt(a, row, x, y);
    }
    SamePairs(l, r);
  }

  lemma RowAt<A, B, V>(a: A, row: map<B, V>, x: A, y: B)
    ensures (x, y) in Row(a, row) <==> x == a && y in row
    ensures (x, y) in Row(a, row) ==> Row(a, row)[(x, y)] == row[y]
  {
  }

  lemma SamePairs<A(!new), B(!new), V>(l: map<(A, B), V>, r: map<(A, B), V>)
    requires forall x: A, y: B :: (x, y) in l <==> (x, y) in r
    requires forall x: A, y: B :: (x, y) in l ==> l[(x, y)] == r[(x, y)]
    ensures l == r
  {
    forall at: (A, B)
      ensures at in l <==> at in r
      ensures at in l ==> l[at] == r[at]
    {
      assert at == (at.0, at.1);
    }
  }

  /** Appending to the last row. */
  lemma RowOneMore<A, B, V>(batch: map<(A, B), V>, a: A, row: map<B, V>, b: B, v: V)
    ensures (batch + Row(a, row))[(a, b) := v] == batch + Row(a, row[b := v])
  {
  }

  lemma RowEmpty<A, B, V>(batch: map<(A, B), V>, a: A)
    ensures batch + Row<A, B, V>(a, map[]) == batch
  {
  }
}
