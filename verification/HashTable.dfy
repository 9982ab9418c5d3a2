/**
 src/ht.inc.c: the chained hash table that grows. Every operation acts on the stored
 map as its name says, through any number of rehashes.
 */
module HashTable {
  import opened Options
  import opened Collections

  datatype Kv<K, V> = Kv(key: K, val: V)

  const PRIMES := 72

  // `ht_primes_sizes`, a quarter of the list at a time.

  function PrimeA(i: nat): nat {
    match i
    case 0 => 3 case 1 => 7 case 2 => 11 case 3 => 17 case 4 => 23 case 5 => 29
    case 6 => 37 case 7 => 47 case 8 => 59 case 9 => 71 case 10 => 89 case 11 => 107
    case 12 => 131 case 13 => 163 case 14 => 197 case 15 => 239 case 16 => 293 case 17 => 353
    case _ => 0
  }

  function PrimeB(i: nat): nat {
    match i
    case 0 => 431 case 1 => 521 case 2 => 631 case 3 => 761 case 4 => 919 case 5 => 1103
    case 6 => 1327 case 7 => 1597 case 8 => 1931 case 9 => 2333 case 10 => 2801 case 11 => 3371
    case 12 => 4049 case 13 => 4861 case 14 => 5839 case 15 => 7013 case 16 => 8419 case 17 => 10103
    case _ => 0
  }

  function PrimeC(i: nat): nat {
    match i
    case 0 => 12143 case 1 => 14591 case 2 => 17519 case 3 => 21023 case 4 => 25229 case 5 => 30293
    case 6 => 36353 case 7 => 43627 case 8 => 52361 case 9 => 62851 case 10 => 75431 case 11 => 90523
    case 12 => 108631 case 13 => 130363 case 14 => 156437 case 15 => 187751 case 16 => 225307 case 17 => 270371
    case _ => 0
  }

  function PrimeD(i: nat): nat {
    match i
    case 0 => 324449 case 1 => 389357 case 2 => 467237 case 3 => 560689 case 4 => 672827 case 5 => 807403
    case 6 => 968897 case 7 => 1162687 case 8 => 1395263 case 9 => 1674319 case 10 => 2009191 case 11 => 2411033
    case 12 => 2893249 case 13 => 3471899 case 14 => 4166287 case 15 => 4999559 case 16 => 5999471 case 17 => 7199369
    case _ => 0
  }

  function Prime(i: nat): nat {
    if i < 18 then PrimeA(i) else if i < 36 then PrimeB(i - 18) else if i < 54 then PrimeC(i - 36) else PrimeD(i - 54)
  }

  /** `bucketfn`. */
  function Slot(h: nat, size: nat): (i: nat)
    requires size > 0
    ensures i < size
  {
    h % size
  }

  ghost predicate EntryOk<K, V>(e: Kv<K, V>, i: nat, size: nat, hash: K -> nat, m: map<K, V>)
    requires size > 0
  {
    Slot(hash(e.key), size) == i && e.key in m && m[e.key] == e.val
  }

  ghost predicate Distinct<K, V>(b: seq<Kv<K, V>>) {
    forall x, y :: 0 <= x < y < |b| ==> b[x].key != b[y].key
  }

  /** Each entry sits in the bucket of its hash and is in the map. */
  ghost predicate BucketOk<K, V>(b: seq<Kv<K, V>>, i: nat, size: nat, hash: K -> nat, m: map<K, V>)
    requires size > 0
  {
    Distinct(b) && forall x :: 0 <= x < |b| ==> EntryOk(b[x], i, size, hash, m)
  }

  ghost predicate Found<K, V>(t: seq<seq<Kv<K, V>>>, hash: K -> nat, m: map<K, V>, k: K)
    requires |t| > 0 && k in m
  {
    Kv(k, m[k]) in t[Slot(hash(k), |t|)]
  }

  /** The buckets hold exactly the map. */
  ghost predicate TableOk<K(!new), V(!new)>(t: seq<seq<Kv<K, V>>>, hash: K -> nat, m: map<K, V>) {
    && |t| > 0
    && (forall i :: 0 <= i < |t| ==> BucketOk(t[i], i, |t|, hash, m))
    && (forall k :: k in m ==> Found(t, hash, m, k))
  }

  // --- one bucket changes ---

  lemma Added<K(!new), V(!new)>(t: seq<seq<Kv<K, V>>>, hash: K -> nat, m: map<K, V>, k: K, v: V)
    requires TableOk(t, hash, m) && k !in m
    ensures var i := Slot(hash(k), |t|); TableOk(t[i := t[i] + [Kv(k, v)]], hash, m[k := v])
  {
    hide Slot;
    var i, n := Slot(hash(k), |t|), m[k := v];
    var u := t[i := t[i] + [Kv(k, v)]];
    forall j | 0 <= j < |u|
      ensures BucketOk(u[j], j, |u|, hash, n)
    {
      assert BucketOk(t[j], j, |t|, hash, m);
      forall x | 0 <= x < |u[j]|
        ensures EntryOk(u[j][x], j, |u|, hash, n)
      {
        if x < |t[j]| {
          assert EntryOk(t[j][x], j, |t|, hash, m);
          assert u[j][x] == t[j][x];
        }
      }
      assert forall x :: 0 <= x < |t[j]| ==> EntryOk(t[j][x], j, |t|, hash, m);
    }
    forall q | q in n
      ensures Found(u, hash, n, q)
    {
      if q != k {
        assert Found(t, hash, m, q);
      } else {
        assert u[i][|t[i]|] == Kv(k, v);
      }
    }
  }

  lemma Replaced<K(!new), V(!new)>(t: seq<seq<Kv<K, V>>>, hash: K -> nat, m: map<K, V>, k: K, v: V, j: nat)
    requires TableOk(t, hash, m)
    requires var i := Slot(hash(k), |t|); j < |t[i]| && t[i][j].key == k
    ensures var i := Slot(hash(k), |t|); TableOk(t[i := t[i][j := Kv(k, v)]], hash, m[k := v])
  {
    hide Slot;
    var i, n := Slot(hash(k), |t|), m[k := v];
    var u := t[i := t[i][j := Kv(k, v)]];
    forall a | 0 <= a < |u|
      ensures BucketOk(u[a], a, |u|, hash, n)
    {
      assert BucketOk(t[a], a, |t|, hash, m);
      assert forall x :: 0 <= x < |t[a]| ==> EntryOk(t[a][x], a, |t|, hash, m);
    }
    forall q | q in n
      ensures Found(u, hash, n, q)
    {
      if q == k {
        assert u[i][j] == Kv(k, v);
      } else {
        assert Found(t, hash, m, q);
        var s := Slot(hash(q), |t|);
        var x :| 0 <= x < |t[s]| && t[s][x] == Kv(q, m[q]);
        assert u[s][x] == t[s][x];
      }
    }
  }

  function Without<T>(b: seq<T>, j: nat): seq<T>
    requires j < |b|
  {
    b[..j] + b[j + 1..]
  }

  lemma Removed<K(!new), V(!new)>(t: seq<seq<Kv<K, V>>>, hash: K -> nat, m: map<K, V>, k: K, j: nat)
    requires TableOk(t, hash, m)
    requires var i := Slot(hash(k), |t|); j < |t[i]| && t[i][j].key == k
    ensures k in m
    ensures var i := Slot(hash(k), |t|); TableOk(t[i := Without(t[i], j)], hash, m - {k})
  {
    hide Slot;
    var i, n := Slot(hash(k), |t|), m - {k};
    var u := t[i := Without(t[i], j)];
    assert BucketOk(t[i], i, |t|, hash, m);
    assert EntryOk(t[i][j], i, |t|, hash, m);
    forall a | 0 <= a < |u|
      ensures BucketOk(u[a], a, |u|, hash, n)
    {
      assert BucketOk(t[a], a, |t|, hash, m);
      assert forall x :: 0 <= x < |t[a]| ==> EntryOk(t[a][x], a, |t|, hash, m);
    }
    forall q | q in n
      ensures Found(u, hash, n, q)
    {
      assert Found(t, hash, m, q);
      var s := Slot(hash(q), |t|);
      var x :| 0 <= x < |t[s]| && t[s][x] == Kv(q, m[q]);
      assert s == i ==> u[s][if x < j then x else x - 1] == t[s][x];
    }
  }

  /** Looking through the bucket of its hash decides whether a key is stored. */
  lemma Decided<K(!new), V(!new)>(t: seq<seq<Kv<K, V>>>, hash: K -> nat, m: map<K, V>, k: K)
    requires TableOk(t, hash, m)
    ensures var b := t[Slot(hash(k), |t|)];
            && (k in m <==> exists x :: 0 <= x < |b| && b[x].key == k)
            && forall x :: 0 <= x < |b| && b[x].key == k ==> k in m && b[x].val == m[k]
  {
    hide Slot;
    var i := Slot(hash(k), |t|);
    assert BucketOk(t[i], i, |t|, hash, m);
    assert forall x :: 0 <= x < |t[i]| ==> EntryOk(t[i][x], i, |t|, hash, m);
    if k in m {
      assert Found(t, hash, m, k);
    }
  }

  // --- sizes ---

  lemma PrimesRise(i: nat)
    requires i + 1 < PRIMES
    ensures 0 < Prime(i) < Prime(i + 1)
  {
    hide PrimeA, PrimeB, PrimeC, PrimeD;
    if i < 18 {
      RiseA(i);
    } else if i < 36 {
      RiseB(i - 18);
    } else if i < 54 {
      RiseC(i - 36);
    } else {
      RiseD(i - 54);
    }
  }

  lemma RiseA(i: nat)
    requires i < 18
    ensures 0 < PrimeA(i) && (i < 17 ==> PrimeA(i) < PrimeA(i + 1)) && (i == 17 ==> PrimeA(i) < PrimeB(0))
  {
  }

  lemma RiseB(i: nat)
    requires i < 18
    ensures 0 < PrimeB(i) && (i < 17 ==> PrimeB(i) < PrimeB(i + 1)) && (i == 17 ==> PrimeB(i) < PrimeC(0))
  {
  }

  lemma RiseC(i: nat)
    requires i < 18
    ensures 0 < PrimeC(i) && (i < 17 ==> PrimeC(i) < PrimeC(i + 1)) && (i == 17 ==> PrimeC(i) < PrimeD(0))
  {
  }

  lemma RiseD(i: nat)
    requires i < 18
    ensures 0 < PrimeD(i) && (i < 17 ==> PrimeD(i) < PrimeD(i + 1))
  {
  }

  /** `next_idx`; None past the end of the list. */
  function NextIdx(idx: Option<nat>): Option<nat> {
    if idx.Some? && idx.value < PRIMES - 1 then Some(idx.value + 1) else None
  }

  /** `compute_size`. */
  function ComputeSize(idx: Option<nat>, sz: nat): nat {
    if idx.Some? && idx.value < PRIMES then Prime(idx.value) else if sz % 2 == 0 then sz + 1 else sz
  }

  predicate SizeOk(idx: Option<nat>, size: nat) {
    size > 0 && (idx.Some? ==> idx.value < PRIMES && size == Prime(idx.value))
  }

  /** The next size is always larger. */
  lemma SizesGrow(idx: Option<nat>, size: nat)
    requires SizeOk(idx, size)
    ensures ComputeSize(NextIdx(idx), size * 2) > size
    ensures SizeOk(NextIdx(idx), ComputeSize(NextIdx(idx), size * 2))
  {
    hide Prime;
    if NextIdx(idx).Some? {
      PrimesRise(idx.value);
    }
  }

  // --- rehashing ---

  /** The walk over the buckets has passed the key. */
  ghost predicate Seen<K, V>(t: seq<seq<Kv<K, V>>>, hash: K -> nat, k: K, i: nat, j: nat)
    requires |t| > 0
  {
    var s := Slot(hash(k), |t|);
    s < i || (s == i && exists x :: 0 <= x < j && x < |t[i]| && t[i][x].key == k)
  }

  ghost predicate Filled<K(!new), V(!new)>(t: seq<seq<Kv<K, V>>>, hash: K -> nat, m: map<K, V>, part: map<K, V>,
                                           i: nat, j: nat)
    requires |t| > 0
  {
    && part.Keys <= m.Keys
    && forall k :: k in m ==> (k in part <==> Seen(t, hash, k, i, j)) && (k in part ==> part[k] == m[k])
  }

  lemma FilledNone<K(!new), V(!new)>(t: seq<seq<Kv<K, V>>>, hash: K -> nat, m: map<K, V>)
    requires TableOk(t, hash, m)
    ensures Filled(t, hash, m, map[], 0, 0)
  {
  }

  lemma FilledStep<K(!new), V(!new)>(t: seq<seq<Kv<K, V>>>, hash: K -> nat, m: map<K, V>, part: map<K, V>, i: nat,
                                     j: nat)
    requires TableOk(t, hash, m) && i < |t| && j < |t[i]| && Filled(t, hash, m, part, i, j)
    ensures var e := t[i][j];
            e.key !in part && |part| < |m| && Filled(t, hash, m, part[e.key := e.val], i, j + 1)
  {
    hide Slot;
    var e := t[i][j];
    assert BucketOk(t[i], i, |t|, hash, m);
    assert EntryOk(e, i, |t|, hash, m);
    assert !Seen(t, hash, e.key, i, j);
    FewerKeys(part, m, e.key);
    forall k | k in m
      ensures Seen(t, hash, k, i, j + 1) <==> Seen(t, hash, k, i, j) || k == e.key
    {
    }
  }

  lemma FilledRow<K(!new), V(!new)>(t: seq<seq<Kv<K, V>>>, hash: K -> nat, m: map<K, V>, part: map<K, V>, i: nat)
    requires TableOk(t, hash, m) && i < |t| && Filled(t, hash, m, part, i, |t[i]|)
    ensures Filled(t, hash, m, part, i + 1, 0)
  {
    hide Slot;
    forall k | k in m
      ensures Seen(t, hash, k, i + 1, 0) <==> Seen(t, hash, k, i, |t[i]|)
    {
      assert Found(t, hash, m, k);
    }
  }

  lemma FilledAll<K(!new), V(!new)>(t: seq<seq<Kv<K, V>>>, hash: K -> nat, m: map<K, V>, part: map<K, V>)
    requires TableOk(t, hash, m) && Filled(t, hash, m, part, |t|, 0)
    ensures part == m
  {
    forall k | k in m
      ensures k in part
    {
      assert Seen(t, hash, k, |t|, 0);
    }
  }

  class Ht<K(==, !new), V(!new)> {
    const hash: K -> nat
    var table: array<seq<Kv<K, V>>>
    var size: nat
    var count: nat
    var primeIdx: Option<nat>
    ghost var m: map<K, V>

    /** The table holds `m`; it may be due to grow. */
    ghost predicate Sound()
      reads this, table
    {
      && table.Length == size && SizeOk(primeIdx, size)
      && TableOk(table[..], hash, m) && count == |m|
    }

    /** At rest there are fewer entries than buckets. */
    ghost predicate Valid()
      reads this, table
    {
      Sound() && count < size
    }

    /** `internal_ht_new`. */
    constructor (hash: K -> nat, size: nat, primeIdx: Option<nat>)
      requires SizeOk(primeIdx, size)
      ensures Valid() && m == map[] && this.hash == hash && this.size == size && this.primeIdx == primeIdx
              && fresh(table)
    {
      this.hash, this.size, this.count, this.primeIdx := hash, size, 0, primeIdx;
      table := new seq<Kv<K, V>>[size](_ => []);
      m := map[];
    }

    method IndexIn(i: nat, key: K) returns (j: Option<nat>)
      requires Sound() && i == Slot(hash(key), size)
      ensures j.Some? ==> j.value < |table[i]| && table[i][j.value].key == key && key in m
                          && table[i][j.value].val == m[key]
      ensures j.None? <==> key !in m
    {
      hide TableOk, Slot, Prime;
      Decided(table[..], hash, m, key);
      for x := 0 to |table[i]|
        invariant forall y :: 0 <= y < x ==> table[i][y].key != key
      {
        if table[i][x].key == key {
          return Some(x);
        }
      }
      return None;
    }

    /** `find`. */
    method Find(key: K) returns (r: Option<V>)
      requires Sound()
      ensures r == if key in m then Some(m[key]) else None
    {
      hide TableOk, Slot, Prime;
      var i := Slot(hash(key), size);
      var j := IndexIn(i, key);
      return if j.Some? then Some(table[i][j.value].val) else None;
    }

    /** `reserve_kv` and the write to the reserved place. */
    method PutKv(key: K, val: V, update: bool) returns (ok: bool)
      requires Sound()
      modifies this`count, this`m, table
      ensures Sound() && ok == (update || key !in old(m)) && m == if ok then old(m)[key := val] else old(m)
      ensures count == old(count) + if key in old(m) then 0 else 1
    {
      hide TableOk, Slot, Prime;
      ghost var t := table[..];
      var i := Slot(hash(key), size);
      var j := IndexIn(i, key);
      assert m[key := val].Keys == m.Keys + {key};
      if j.Some? {
        if !update {
          return false;
        }
        Replaced(t, hash, m, key, val, j.value);
        table[i] := table[i][j.value := Kv(key, val)];
        assert table[..] == t[i := t[i][j.value := Kv(key, val)]];
      } else {
        Added(t, hash, m, key, val);
        table[i] := table[i] + [Kv(key, val)];
        assert table[..] == t[i := t[i] + [Kv(key, val)]];
        count := count + 1;
      }
      m := m[key := val];
      return true;
    }

    /** `insert_update`: insert leaves a stored key alone, update overwrites it. */
    method InsertUpdate(key: K, val: V, update: bool) returns (ok: bool)
      requires Valid()
      modifies this, table
      ensures Valid() && (table == old(table) || fresh(table))
      ensures ok == (update || key !in old(m)) && m == if ok then old(m)[key := val] else old(m)
    {
      ok := PutKv(key, val, update);
      if ok {
        CheckGrowing();
      }
    }

    /** `check_growing`. */
    method CheckGrowing()
      requires Sound() && count <= size
      modifies this
      ensures Valid() && m == old(m) && (table == old(table) || fresh(table))
    {
      if count >= size {
        Grow();
      }
    }

    /** `internal_ht_grow`. */
    method Grow()
      requires Sound() && count <= size
      modifies this
      ensures Valid() && m == old(m) && fresh(table)
    {
      hide TableOk, Prime;
      SizesGrow(primeIdx, size);
      var idx := NextIdx(primeIdx);
      var ht2 := new Ht(hash, ComputeSize(idx, size * 2), idx);
      ht2.Fill(table[..], m);
      table, size, count, primeIdx := ht2.table, ht2.size, ht2.count, ht2.primeIdx;
    }

    /** Inserts every entry of the old buckets. There is always room, so no insertion
        makes the new table grow in turn. */
    method Fill(t: seq<seq<Kv<K, V>>>, ghost all: map<K, V>)
      requires Valid() && m == map[] && TableOk(t, hash, all) && |all| < size
      modifies this`count, this`m, table
      ensures Valid() && m == all
    {
      hide TableOk, Slot, Prime, Filled;
      TableSize(t, hash, all);
      FilledNone(t, hash, all);
      for i := 0 to |t|
        invariant Valid() && Filled(t, hash, all, m, i, 0)
      {
        FillRow(t, all, i);
      }
      FilledAll(t, hash, all, m);
    }

    method FillRow(t: seq<seq<Kv<K, V>>>, ghost all: map<K, V>, i: nat)
      requires Valid() && TableOk(t, hash, all) && |all| < size && i < |t| && Filled(t, hash, all, m, i, 0)
      modifies this`count, this`m, table
      ensures Valid() && Filled(t, hash, all, m, i + 1, 0)
    {
      hide TableOk, Slot, Prime, Filled, SizeOk;
      for j := 0 to |t[i]|
        invariant Valid() && Filled(t, hash, all, m, i, j)
      {
        FilledStep(t, hash, all, m, i, j);
        var ok := PutKv(t[i][j].key, t[i][j].val, false);
        assert count < size;
      }
      FilledRow(t, hash, all, m, i);
    }

    /** `delete`: the entries behind the removed one move up. */
    method Delete(key: K) returns (ok: bool)
      requires Valid()
      modifies this`count, this`m, table
      ensures Valid() && ok == (key in old(m)) && m == old(m) - {key}
    {
      hide TableOk, Slot, Prime;
      var i := Slot(hash(key), size);
      var j := IndexIn(i, key);
      if j.None? {
        assert m - {key} == m;
        return false;
      }
      RemoveAt(i, j.value, key);
      return true;
    }

    method RemoveAt(i: nat, j: nat, key: K)
      requires Sound() && i == Slot(hash(key), size) && j < |table[i]| && table[i][j].key == key
      modifies this`count, this`m, table
      ensures Sound() && key in old(m) && m == old(m) - {key} && count == old(count) - 1
      ensures table[i] == Without(old(table[i]), j) && forall x :: 0 <= x < size && x != i ==> table[x] == old(table[x])
    {
      hide TableOk, Slot, Prime;
      ghost var t := table[..];
      Removed(t, hash, m, key, j);
      assert (m - {key}).Keys == m.Keys - {key};
      table[i] := Without(table[i], j);
      assert table[..] == t[i := Without(t[i], j)];
      count := count - 1;
      m := m - {key};
    }

    /** `foreach` with a callback that may delete the element it is called for and may end
        the walk: each element is visited at most once, and the visited ones that the
        callback deletes are those missing after. */
    method Foreach(deletes: (K, V) -> bool, goesOn: (K, V) -> bool) returns (visited: seq<Kv<K, V>>, done: bool)
      requires Valid()
      modifies this`count, this`m, table
      ensures Valid() && m == Spared(old(m), visited, deletes)
      ensures Distinct(visited) && forall e :: e in visited ==> e.key in old(m) && old(m)[e.key] == e.val
      ensures done ==> forall k :: k in old(m) ==> Kv(k, old(m)[k]) in visited
      ensures Went(visited, goesOn, done)
    {
      hide TableOk, Slot, Prime, Walked, SizeOk, Distinct, Spared, Went;
      ghost var all := m;
      visited, done := [], true;
      WalkedNone(table[..], hash, m, deletes);
      WentNone(goesOn);
      ghost var j := 0;
      var i := 0;
      while i < size && done
        invariant Valid() && i <= size && size == old(size) && Walked(table[..], hash, all, m, deletes, visited, i, j)
        invariant Went(visited, goesOn, done) && (done ==> j == 0)
        decreases size - i, done
      {
        visited, done, j := ForeachRow(deletes, goesOn, all, visited, i);
        if done {
          i := i + 1;
        }
      }
      WalkedSoFar(table[..], hash, all, m, deletes, visited, i, j);
      if done {
        WalkedAll(table[..], hash, all, m, deletes, visited);
      }
    }

    /** One bucket: the position stays where it is when an element went away. */
    method ForeachRow(deletes: (K, V) -> bool, goesOn: (K, V) -> bool, ghost all: map<K, V>, before: seq<Kv<K, V>>,
                      i: nat)
      returns (visited: seq<Kv<K, V>>, done: bool, ghost at: nat)
      requires Valid() && i < size && Walked(table[..], hash, all, m, deletes, before, i, 0)
               && Went(before, goesOn, true)
      modifies this`count, this`m, table
      ensures Valid() && Went(visited, goesOn, done)
      ensures if done then at == 0 && Walked(table[..], hash, all, m, deletes, visited, i + 1, 0)
              else Walked(table[..], hash, all, m, deletes, visited, i, at)
    {
      hide TableOk, Slot, Prime, Walked, SizeOk, Without, Went;
      visited := before;
      var j := 0;
      while j < |table[i]|
        invariant Valid() && j <= |table[i]| && Walked(table[..], hash, all, m, deletes, visited, i, j)
        invariant Went(visited, goesOn, true)
        decreases |table[i]| - j
      {
        var e := table[i][j];
        ghost var t := table[..];
        var known := count;
        WalkedStep(t, hash, all, m, deletes, visited, i, j);
        WentMore(visited, e, goesOn);
        visited := visited + [e];
        if deletes(e.key, e.val) {
          RemoveAt(i, j, e.key);
          WithoutLen(t[i], j);
          assert table[..] == t[i := Without(t[i], j)];
        }
        if !goesOn(e.key, e.val) {
          return visited, false, if count == known then j + 1 else j;
        }
        if count == known {
          j := j + 1;
        }
      }
      WalkedRow(table[..], hash, all, m, deletes, visited, i);
      done, at := true, 0;
    }

    /** `update_key`: the value moves to a new key that is not in use. */
    method UpdateKey(oldKey: K, newKey: K) returns (ok: bool)
      requires Valid()
      modifies this, table
      ensures Valid() && ok == (oldKey in old(m) && newKey !in old(m))
      ensures m == if ok then old(m)[newKey := old(m)[oldKey]] - {oldKey} else old(m)
    {
      hide TableOk, Slot, Prime;
      var value := Find(oldKey);
      if value.None? {
        return false;
      }
      ok := InsertUpdate(newKey, value.value, false);
      if !ok {
        return false;
      }
      var deleted := Delete(oldKey);
    }
  }

  lemma TableSize<K(!new), V(!new)>(t: seq<seq<Kv<K, V>>>, hash: K -> nat, m: map<K, V>)
    requires TableOk(t, hash, m)
    ensures |t| > 0
  {
  }

  lemma WithoutLen<T>(b: seq<T>, j: nat)
    requires j < |b|
    ensures |Without(b, j)| == |b| - 1
  {
  }

  /** The map without the visited elements that the callback deletes. */
  ghost function Spared<K(!new), V(!new)>(m: map<K, V>, visited: seq<Kv<K, V>>, deletes: (K, V) -> bool): map<K, V> {
    map k | k in m && !(deletes(k, m[k]) && Kv(k, m[k]) in visited) :: m[k]
  }

  /** The callback asked to go on at every visited element, but not at the last of a walk that was ended. */
  ghost predicate Went<K(!new), V(!new)>(visited: seq<Kv<K, V>>, goesOn: (K, V) -> bool, done: bool) {
    && (forall x :: 0 <= x < |visited| - 1 ==> goesOn(visited[x].key, visited[x].val))
    && (!done ==> visited != [])
    && (visited != [] ==> var e := visited[|visited| - 1]; goesOn(e.key, e.val) == done)
  }

  lemma WentNone<K(!new), V(!new)>(goesOn: (K, V) -> bool)
    ensures Went([], goesOn, true)
  {
  }

  lemma WentMore<K(!new), V(!new)>(visited: seq<Kv<K, V>>, e: Kv<K, V>, goesOn: (K, V) -> bool)
    requires Went(visited, goesOn, true)
    ensures Went(visited + [e], goesOn, goesOn(e.key, e.val))
  {
  }

  /** Where a key stands: bucket and position of the walk have passed it or not. */
  ghost predicate Ahead<K, V>(t: seq<seq<Kv<K, V>>>, hash: K -> nat, k: K, i: nat, j: nat)
    requires |t| > 0
  {
    var s := Slot(hash(k), |t|);
    s > i || (s == i && exists x :: j <= x < |t[i]| && t[i][x].key == k)
  }

  ghost predicate VisitedAt<K, V>(visited: seq<Kv<K, V>>, k: K) {
    exists x :: 0 <= x < |visited| && visited[x].key == k
  }

  /** Every key is either still ahead and untouched, or visited, and then stored exactly
      when the callback spared it. */
  ghost predicate WalkedKey<K, V>(t: seq<seq<Kv<K, V>>>, hash: K -> nat, all: map<K, V>, m: map<K, V>,
                                  deletes: (K, V) -> bool,
                                  visited: seq<Kv<K, V>>, i: nat, j: nat, k: K)
    requires |t| > 0 && k in all
  {
    && (VisitedAt(visited, k) <==> !Ahead(t, hash, k, i, j))
    && (k in m <==> Ahead(t, hash, k, i, j) || !deletes(k, all[k]))
  }

  ghost predicate Walked<K(!new), V(!new)>(t: seq<seq<Kv<K, V>>>, hash: K -> nat, all: map<K, V>, m: map<K, V>,
                                           deletes: (K, V) -> bool,
                                           visited: seq<Kv<K, V>>, i: nat, j: nat)
  {
    && |t| > 0 && TableOk(t, hash, m) && Distinct(visited)
    && (forall k :: k in m ==> k in all && m[k] == all[k])
    && (forall x :: 0 <= x < |visited| ==> visited[x].key in all && all[visited[x].key] == visited[x].val)
    && (forall k :: k in all ==> WalkedKey(t, hash, all, m, deletes, visited, i, j, k))
  }

  lemma StoredAt<K(!new), V(!new)>(t: seq<seq<Kv<K, V>>>, hash: K -> nat, m: map<K, V>, k: K)
    requires TableOk(t, hash, m) && k in m
    ensures var b := t[Slot(hash(k), |t|)]; exists x :: 0 <= x < |b| && b[x].key == k
  {
    hide Slot;
    Decided(t, hash, m, k);
  }

  lemma WalkedNone<K(!new), V(!new)>(t: seq<seq<Kv<K, V>>>, hash: K -> nat, m: map<K, V>, deletes: (K, V) -> bool)
    requires TableOk(t, hash, m)
    ensures Walked(t, hash, m, m, deletes, [], 0, 0)
  {
    hide Slot;
    forall k | k in m
      ensures WalkedKey(t, hash, m, m, deletes, [], 0, 0, k)
    {
      StoredAt(t, hash, m, k);
    }
  }

  /** The element at the position of the walk. */
  lemma Current<K(!new), V(!new)>(t: seq<seq<Kv<K, V>>>, hash: K -> nat, m: map<K, V>, i: nat, j: nat)
    requires TableOk(t, hash, m) && i < |t| && j < |t[i]|
    ensures Slot(hash(t[i][j].key), |t|) == i && t[i][j].key in m && m[t[i][j].key] == t[i][j].val
    ensures forall x :: 0 <= x < |t[i]| && x != j ==> t[i][x].key != t[i][j].key
  {
    hide Slot;
    assert BucketOk(t[i], i, |t|, hash, m);
    assert EntryOk(t[i][j], i, |t|, hash, m);
  }

  lemma WalkedStep<K(!new), V(!new)>(t: seq<seq<Kv<K, V>>>, hash: K -> nat, all: map<K, V>, m: map<K, V>,
                                     deletes: (K, V) -> bool,
                                     visited: seq<Kv<K, V>>, i: nat, j: nat)
    requires Walked(t, hash, all, m, deletes, visited, i, j) && i < |t| && j < |t[i]|
    ensures Slot(hash(t[i][j].key), |t|) == i
    ensures var e := t[i][j];
            if deletes(e.key, e.val)
            then Walked(t[i := Without(t[i], j)], hash, all, m - {e.key}, deletes, visited + [e], i, j)
            else Walked(t, hash, all, m, deletes, visited + [e], i, j + 1)
  {
    hide Slot, TableOk;
    var e := t[i][j];
    Current(t, hash, m, i, j);
    assert WalkedKey(t, hash, all, m, deletes, visited, i, j, e.key);
    VisitedMore(visited, e);
    if deletes(e.key, e.val) {
      Removed(t, hash, m, e.key, j);
      var u := t[i := Without(t[i], j)];
      forall k | k in all
        ensures WalkedKey(u, hash, all, m - {e.key}, deletes, visited + [e], i, j, k)
      {
        assert WalkedKey(t, hash, all, m, deletes, visited, i, j, k);
        AheadWithout(t, hash, k, i, j);
      }
    } else {
      forall k | k in all
        ensures WalkedKey(t, hash, all, m, deletes, visited + [e], i, j + 1, k)
      {
        assert WalkedKey(t, hash, all, m, deletes, visited, i, j, k);
      }
    }
  }

  lemma VisitedMore<K(!new), V(!new)>(visited: seq<Kv<K, V>>, e: Kv<K, V>)
    ensures forall k :: VisitedAt(visited + [e], k) <==> VisitedAt(visited, k) || k == e.key
    ensures Distinct(visited) && !VisitedAt(visited, e.key) ==> Distinct(visited + [e])
  {
    forall k
      ensures VisitedAt(visited + [e], k) <==> VisitedAt(visited, k) || k == e.key
    {
      if VisitedAt(visited, k) {
        var x :| 0 <= x < |visited| && visited[x].key == k;
        assert (visited + [e])[x].key == k;
      }
      if k == e.key {
        assert (visited + [e])[|visited|].key == k;
      }
    }
  }

  lemma AheadWithout<K(!new), V(!new)>(t: seq<seq<Kv<K, V>>>, hash: K -> nat, k: K, i: nat, j: nat)
    requires i < |t| && j < |t[i]| && forall x :: 0 <= x < |t[i]| && x != j ==> t[i][x].key != t[i][j].key
    ensures Ahead(t[i := Without(t[i], j)], hash, k, i, j)
            <==> Ahead(t, hash, k, i, j) && !(k == t[i][j].key && Slot(hash(k), |t|) == i)
  {
    hide Slot;
    var b, c := t[i], Without(t[i], j);
    assert forall x :: j <= x < |c| ==> c[x] == b[x + 1];
    if exists x :: j + 1 <= x < |b| && b[x].key == k {
      var x :| j + 1 <= x < |b| && b[x].key == k;
      assert c[x - 1].key == k;
    }
  }

  lemma WalkedRow<K(!new), V(!new)>(t: seq<seq<Kv<K, V>>>, hash: K -> nat, all: map<K, V>, m: map<K, V>,
                                    deletes: (K, V) -> bool,
                                    visited: seq<Kv<K, V>>, i: nat)
    requires i < |t| && Walked(t, hash, all, m, deletes, visited, i, |t[i]|)
    ensures Walked(t, hash, all, m, deletes, visited, i + 1, 0)
  {
    hide Slot, TableOk;
    forall k | k in all
      ensures WalkedKey(t, hash, all, m, deletes, visited, i + 1, 0, k)
    {
      assert WalkedKey(t, hash, all, m, deletes, visited, i, |t[i]|, k);
      if k in m {
        StoredAt(t, hash, m, k);
      }
    }
  }

  /** Wherever the walk stands, the visited elements have been dealt with and no others. */
  lemma WalkedSoFar<K(!new), V(!new)>(t: seq<seq<Kv<K, V>>>, hash: K -> nat, all: map<K, V>, m: map<K, V>,
                                      deletes: (K, V) -> bool,
                                      visited: seq<Kv<K, V>>, i: nat, j: nat)
    requires Walked(t, hash, all, m, deletes, visited, i, j)
    ensures m == Spared(all, visited, deletes) && Distinct(visited)
    ensures forall e :: e in visited ==> e.key in all && all[e.key] == e.val
  {
    hide Slot, TableOk, Ahead;
    forall k | k in all
      ensures k in m <==> !(deletes(k, all[k]) && Kv(k, all[k]) in visited)
    {
      assert WalkedKey(t, hash, all, m, deletes, visited, i, j, k);
      VisitedIs(all, visited, k);
    }
  }

  lemma VisitedIs<K(!new), V(!new)>(all: map<K, V>, visited: seq<Kv<K, V>>, k: K)
    requires k in all
    requires forall x :: 0 <= x < |visited| ==> visited[x].key in all && all[visited[x].key] == visited[x].val
    ensures VisitedAt(visited, k) <==> Kv(k, all[k]) in visited
  {
    if VisitedAt(visited, k) {
      var x :| 0 <= x < |visited| && visited[x].key == k;
      assert visited[x] == Kv(k, all[k]);
    }
  }

  lemma WalkedAll<K(!new), V(!new)>(t: seq<seq<Kv<K, V>>>, hash: K -> nat, all: map<K, V>, m: map<K, V>,
                                    deletes: (K, V) -> bool,
                                    visited: seq<Kv<K, V>>)
    requires Walked(t, hash, all, m, deletes, visited, |t|, 0)
    ensures forall k :: k in all ==> Kv(k, all[k]) in visited
  {
    hide Slot, TableOk;
    forall k | k in all
      ensures Kv(k, all[k]) in visited
    {
      assert WalkedKey(t, hash, all, m, deletes, visited, |t|, 0, k);
      VisitedIs(all, visited, k);
    }
  }
}
