/** The chained hash map of src/tsalgo/map.c: an array of curSize buckets,
    each a list of slots; a key lives in bucket `key % curSize`, new slots
    go to the head of their bucket, and the array grows fourfold once the
    map holds twice as many slots as it has buckets. */
module HashMap {
  import opened Base

  /** Keys are the unsigned 64-bit integers of the C interface. */
  type Key = k: int | 0 <= k < 0x1_0000_0000_0000_0000

  /** The unsigned 32-bit size argument of init. */
  type U32 = n: int | 0 <= n < 0x1_0000_0000

  /** The bucket count init uses when it is asked for zero. */
  const DefaultSize: nat := 8192

  /** ts_algo_map_slot_t: a key and the data stored under it. */
  datatype Slot<D> = Slot(key: Key, data: D)

  /** ts_algo_map_t: the bucket count asked for at init, the bucket count
      in use, the slot counter, whether a delete callback was given, and
      the buckets, each listed head first. */
  datatype Table<D> = Table(baseSize: nat, curSize: nat, count: nat, del: bool, buf: seq<seq<Slot<D>>>)

  // ------------------------------------------------------------ buckets

  /** The buckets one after the other. */
  function Concat<X>(b: seq<seq<X>>): seq<X> {
    if |b| == 0 then [] else b[0] + Concat(b[1..])
  }

  /** Every slot of the map, bucket by bucket, each bucket head first. */
  function Entries<D>(m: Table<D>): seq<Slot<D>> {
    Concat(m.buf)
  }

  /** The data of a run of slots. */
  function Datas<D>(s: seq<Slot<D>>): (r: seq<D>)
    ensures |r| == |s| && forall i :: 0 <= i < |s| ==> r[i] == s[i].data
  {
    seq(|s|, i requires 0 <= i < |s| => s[i].data)
  }

  lemma {:induction false} ConcatAppend<X>(a: seq<seq<X>>, b: seq<seq<X>>)
    ensures Concat(a + b) == Concat(a) + Concat(b)
    decreases |a|
  {
    if |a| == 0 {
      assert a + b == b;
    } else {
      assert (a + b)[1..] == a[1..] + b;
      ConcatAppend(a[1..], b);
    }
  }

  lemma {:induction false} ConcatSplit<X>(b: seq<seq<X>>, s: nat)
    requires s < |b|
    ensures Concat(b) == Concat(b[..s]) + b[s] + Concat(b[s + 1..])
  {
    var t := [b[s]] + b[s + 1..];
    assert b == b[..s] + t;
    ConcatAppend(b[..s], t);
    assert t[0] == b[s] && t[1..] == b[s + 1..];
    assert Concat(t) == b[s] + Concat(b[s + 1..]);
  }

  /** A slot is among the entries exactly when some bucket holds it. */
  lemma {:induction false} InConcat<X>(b: seq<seq<X>>, x: X)
    ensures x in Concat(b) <==> exists s :: 0 <= s < |b| && x in b[s]
    decreases |b|
  {
    if |b| > 0 {
      InConcat(b[1..], x);
      if x in Concat(b[1..]) {
        var s :| 0 <= s < |b[1..]| && x in b[1..][s];
        assert x in b[s + 1];
      }
      if exists s :: 0 <= s < |b| && x in b[s] {
        var s :| 0 <= s < |b| && x in b[s];
        if s > 0 {
          assert x in b[1..][s - 1];
        }
      }
    }
  }

  /** Replacing one bucket replaces its slots among the entries. */
  lemma ConcatUpdate<X>(b: seq<seq<X>>, k: nat, x: seq<X>)
    requires k < |b|
    ensures multiset(Concat(b[k := x])) + multiset(b[k]) == multiset(Concat(b)) + multiset(x)
    ensures |Concat(b[k := x])| + |b[k]| == |Concat(b)| + |x|
  {
    var c := b[k := x];
    ConcatSplit(b, k);
    ConcatSplit(c, k);
    assert c[..k] == b[..k];
    assert c[k + 1..] == b[k + 1..];
  }

  /** The map has its bucket array. */
  predicate Shaped<D>(m: Table<D>) {
    m.curSize >= 1 && |m.buf| == m.curSize
  }

  /** The bucket a key belongs to. */
  function Bucket<D>(m: Table<D>, key: Key): (k: nat)
    requires Shaped(m)
    ensures k < |m.buf|
  {
    key % m.curSize
  }

  /** Every slot of `x` belongs in bucket `k` of `size` buckets. */
  predicate Home<D>(size: nat, k: nat, x: seq<Slot<D>>)
    requires size >= 1
  {
    forall j :: 0 <= j < |x| ==> x[j].key % size == k
  }

  /** A well-formed map: the counter counts the slots and every slot sits
      in its key's bucket. */
  predicate Wf<D>(m: Table<D>) {
    && Shaped(m) && m.count == |Entries(m)|
    && forall i :: 0 <= i < |m.buf| ==> Home(m.curSize, i, m.buf[i])
  }

  /** Replacing bucket `k` of a well-formed map by slots that belong there,
      with the counter adjusted, keeps it well formed and exchanges the
      bucket's slots among the entries. */
  lemma SetBucket<D>(m: Table<D>, k: nat, x: seq<Slot<D>>, count: nat)
    requires Wf(m) && k < |m.buf| && Home(m.curSize, k, x)
    requires count + |m.buf[k]| == m.count + |x|
    ensures var r := m.(buf := m.buf[k := x], count := count);
            && Wf(r) && multiset(Entries(r)) + multiset(m.buf[k]) == multiset(Entries(m)) + multiset(x)
  {
    ConcatUpdate(m.buf, k, x);
  }

  /** Pointwise arithmetic on multisets: exchanging `mb` for `mx` where
      `mb + q == mx + p` amounts to exchanging `p` for `q`. */
  lemma Exchange<X>(er: multiset<X>, e: multiset<X>, mb: multiset<X>, mx: multiset<X>, p: multiset<X>, q: multiset<X>)
    requires er + mb == e + mx && mb + q == mx + p
    ensures er + p == e + q
  {
    forall z
      ensures (er + p)[z] == (e + q)[z]
    {
      assert (er + mb)[z] == (e + mx)[z];
      assert (mb + q)[z] == (mx + p)[z];
    }
  }

  // ------------------------------------------------------------ init

  /** A map of `size` empty buckets. */
  function Empty<D>(base: nat, size: nat, del: bool): (r: Table<D>)
    requires size >= 1
  {
    Table(base, size, 0, del, seq(size, _ => []))
  }

  lemma {:induction false} EmptyConcat<X>(b: seq<seq<X>>)
    requires forall i :: 0 <= i < |b| ==> b[i] == []
    ensures Concat(b) == []
    decreases |b|
  {
    if |b| > 0 {
      EmptyConcat(b[1..]);
    }
  }

  /** ts_algo_map_init: a NULL map is refused; otherwise the map gets `sz`
      buckets, or DefaultSize when `sz` is 0, unless the bucket array cannot
      be allocated (`alloc` false). The map is returned only on success. */
  function Init<D>(isNull: bool, sz: U32, del: bool, alloc: bool): (r: (Rc, Option<Table<D>>))
    ensures r.1.Some? <==> r.0 == Ok
  {
    if isNull then (Invalid, None)
    else
      var size := if sz == 0 then DefaultSize else sz;
      if !alloc then (NoMem, None) else (Ok, Some(Empty(size, size, del)))
  }

  /** Init succeeds exactly for a non-NULL map whose buckets can be
      allocated, and then yields an empty, well-formed map of the asked
      size (DefaultSize for 0) holding the delete callback. */
  lemma InitSpec<D>(isNull: bool, sz: U32, del: bool, alloc: bool)
    ensures var r := Init<D>(isNull, sz, del, alloc);
            && (isNull ==> r.0 == Invalid)
            && (r.0 == Ok <==> !isNull && alloc)
            && (!isNull && !alloc ==> r.0 == NoMem)
            && (r.0 == Ok ==> var m := r.1.value;
                              && Wf(m) && Entries(m) == [] && m.del == del
                              && m.baseSize == m.curSize && m.curSize == (if sz == 0 then 8192 else sz))
  {
    var r := Init<D>(isNull, sz, del, alloc);
    if r.0 == Ok {
      EmptyConcat(r.1.value.buf);
    }
  }

  // ------------------------------------------------------------ lookup

  /** The first slot of a bucket with the given key. */
  function Find<D>(b: seq<Slot<D>>, key: Key): (r: Option<nat>)
    ensures r.Some? ==> r.value < |b| && b[r.value].key == key
    ensures r.Some? ==> forall i :: 0 <= i < r.value ==> b[i].key != key
    ensures r.None? ==> forall i :: 0 <= i < |b| ==> b[i].key != key
  {
    if |b| == 0 then None
    else if b[0].key == key then Some(0)
    else
      match Find(b[1..], key)
      case None => None
      case Some(i) => Some(i + 1)
  }

  /** ts_algo_map_get: the data of the first slot with the key in the key's
      bucket, None (NULL) when there is none. */
  function Get<D>(m: Table<D>, key: Key): (r: Option<D>)
    requires Shaped(m)
  {
    var b := m.buf[Bucket(m, key)];
    match Find(b, key)
    case None => None
    case Some(i) => Some(b[i].data)
  }

  /** Get finds a key exactly when the map holds a slot with it, and what
      it returns is the data of such a slot. */
  lemma GetSpec<D>(m: Table<D>, key: Key)
    requires Wf(m)
    ensures Get(m, key).None? <==> forall s :: s in Entries(m) ==> s.key != key
    ensures Get(m, key).Some? ==> Slot(key, Get(m, key).value) in Entries(m)
  {
    var k := Bucket(m, key);
    var b := m.buf[k];
    match Find(b, key)
    case None =>
      forall s | s in Entries(m)
        ensures s.key != key
      {
        InConcat(m.buf, s);
        var t :| 0 <= t < |m.buf| && s in m.buf[t];
        var j :| 0 <= j < |m.buf[t]| && m.buf[t][j] == s;
        assert Home(m.curSize, t, m.buf[t]);
      }
    case Some(i) =>
      InConcat(m.buf, b[i]);
  }

  /** A key whose slots all carry the same data is found with that data. */
  lemma GetOnly<D>(m: Table<D>, key: Key, d: D)
    requires Wf(m) && Slot(key, d) in Entries(m)
    requires forall s :: s in Entries(m) && s.key == key ==> s.data == d
    ensures Get(m, key) == Some(d)
  {
    GetSpec(m, key);
    var k := Bucket(m, key);
    var i := Find(m.buf[k], key).value;
    InConcat(m.buf, m.buf[k][i]);
  }

  // ------------------------------------------------------------ add

  /** Linking a slot at the head of its bucket and counting it (the
      successful end of ts_algo_map_add). */
  function Put<D>(m: Table<D>, s: Slot<D>): (r: Table<D>)
    requires Shaped(m)
    ensures Shaped(r) && r.curSize == m.curSize && r.count == m.count + 1
  {
    var k := Bucket(m, s.key);
    m.(buf := m.buf[k := [s] + m.buf[k]], count := m.count + 1)
  }

  /** Putting a slot keeps the map well formed and adds exactly that slot. */
  lemma PutSpec<D>(m: Table<D>, s: Slot<D>)
    requires Wf(m)
    ensures Wf(Put(m, s))
    ensures multiset(Entries(Put(m, s))) == multiset(Entries(m)) + multiset{s}
  {
    var k := Bucket(m, s.key);
    var b := m.buf[k];
    var x := [s] + b;
    assert Home(m.curSize, k, x) by {
      forall j | 0 <= j < |x|
        ensures x[j].key % m.curSize == k
      {
        if j > 0 {
          assert x[j] == b[j - 1];
        }
      }
    }
    SetBucket(m, k, x, m.count + 1);
    var r := Put(m, s);
    assert r == m.(buf := m.buf[k := x], count := m.count + 1);
    Exchange(multiset(Entries(r)), multiset(Entries(m)), multiset(b), multiset(x), multiset{}, multiset{s});
  }

  /** After a put, the put key is found with the put data. */
  lemma PutGet<D>(m: Table<D>, s: Slot<D>)
    requires Shaped(m)
    ensures Get(Put(m, s), s.key) == Some(s.data)
  {
  }

  /** A put leaves every other key's lookup alone. */
  lemma PutGetOther<D>(m: Table<D>, s: Slot<D>, key: Key)
    requires Shaped(m) && key != s.key
    ensures Get(Put(m, s), key) == Get(m, key)
  {
    var k := Bucket(m, s.key);
    var b := [s] + m.buf[k];
    assert b[1..] == m.buf[k];
  }

  /** The allocations ts_algo_map_add makes: the bigger bucket array (only
      when it resizes), the slot and the list node. */
  datatype Alloc = Alloc(table: bool, slot: bool, node: bool)

  /** Whether an add resizes first: the map holds twice as many slots as it
      has buckets. */
  predicate Full<D>(m: Table<D>) {
    m.count >= 2 * m.curSize
  }

  /** ts_algo_map_add, with the corrected resize: resize when full, then
      link a new slot at the head of the key's bucket; no check for a key
      already present. A failed slot allocation returns NoMem after a
      resize that happened; a failed node allocation leaves the bucket
      as it was but still counts the slot and returns Err, the code the
      list insert gives back. */
  function Add<D>(m: Table<D>, key: Key, data: D, a: Alloc): (r: (Rc, Table<D>))
    requires Shaped(m)
    ensures Shaped(r.1)
  {
    var g := if Full(m) then Resize(m, a.table) else (Ok, m, []);
    if g.0 != Ok then (g.0, g.1)
    else if !a.slot then (NoMem, g.1)
    else if !a.node then (Err, g.1.(count := g.1.count + 1))
    else (Ok, Put(g.1, Slot(key, data)))
  }

  /** What an add does: on success the map is well formed, holds one slot
      more, finds the key with the new data, and has four times the
      buckets exactly when it was full; a failed resize or slot allocation
      loses nothing; a failed node allocation counts a slot it did not
      link. */
  lemma AddSpec<D>(m: Table<D>, key: Key, data: D, a: Alloc)
    requires Wf(m)
    ensures var r := Add(m, key, data, a);
            && (r.0 == Ok <==> (!Full(m) || a.table) && a.slot && a.node)
            && (r.0 == Ok ==> && Wf(r.1) && Get(r.1, key) == Some(data)
                              && multiset(Entries(r.1)) == multiset(Entries(m)) + multiset{Slot(key, data)}
                              && r.1.curSize == if Full(m) then 4 * m.curSize else m.curSize)
            && (r.0 == NoMem ==> Wf(r.1) && multiset(Entries(r.1)) == multiset(Entries(m)))
            && (r.0 == Err ==> r.1.count == |Entries(r.1)| + 1 && multiset(Entries(r.1)) == multiset(Entries(m)))
  {
    var r := Add(m, key, data, a);
    if Full(m) {
      ResizeSpec(m, a.table);
    }
    var g := if Full(m) then Resize(m, a.table) else (Ok, m, []);
    if g.0 == Ok && a.slot && a.node {
      PutSpec(g.1, Slot(key, data));
      PutGet(g.1, Slot(key, data));
    }
  }

  /** Without a resize, an add leaves every other key's lookup alone. */
  lemma AddGetOther<D>(m: Table<D>, key: Key, data: D, a: Alloc, other: Key)
    requires Shaped(m) && !Full(m) && other != key
    ensures Get(Add(m, key, data, a).1, other) == Get(m, other)
  {
    if a.slot && a.node {
      PutGetOther(m, Slot(key, data), other);
    }
  }

  /** A map never holds more than twice as many slots as buckets: a full
      map grows fourfold before the next slot. So the adds that copy a
      map into its fourfold successor never resize. */
  lemma AddBounded<D>(m: Table<D>, key: Key, data: D, a: Alloc)
    requires Wf(m) && m.count <= 2 * m.curSize
    ensures var r := Add(m, key, data, a).1;
            r.count <= 2 * r.curSize
  {
    if Full(m) {
      ResizeSpec(m, a.table);
    }
  }

  // ------------------------------------------------------------ remove, update

  /** ts_algo_map_remove: unlink the first slot with the key from its
      bucket and return its data; None (NULL) and no change when the key
      is absent. The unsigned counter wraps below zero. The only slot of a
      bucket is unlinked too, which the code as written cannot do
      (RemoveAsWritten). */
  function Remove<D>(m: Table<D>, key: Key): (r: (Option<D>, Table<D>))
    requires Shaped(m)
    ensures Shaped(r.1)
  {
    var k := Bucket(m, key);
    var b := m.buf[k];
    match Find(b, key)
    case None => (None, m)
    case Some(i) =>
      var count := if m.count == 0 then 0xFFFF_FFFF else m.count - 1;
      (Some(b[i].data), m.(buf := m.buf[k := b[..i] + b[i + 1..]], count := count))
  }

  /** Remove returns what Get finds; if anything, it takes exactly one slot
      with the key and that data out of a well-formed map; otherwise the
      map is unchanged. */
  lemma RemoveSpec<D>(m: Table<D>, key: Key)
    requires Wf(m)
    ensures var r := Remove(m, key);
            && r.0 == Get(m, key) && Wf(r.1)
            && (r.0.None? ==> r.1 == m)
            && (r.0.Some? ==> && r.1.count + 1 == m.count
                              && multiset(Entries(r.1)) + multiset{Slot(key, r.0.value)} == multiset(Entries(m)))
  {
    var k := Bucket(m, key);
    var b := m.buf[k];
    match Find(b, key)
    case None =>
    case Some(i) =>
      var x := b[..i] + b[i + 1..];
      assert b == b[..i] + [b[i]] + b[i + 1..];
      assert Home(m.curSize, k, x) by {
        forall j | 0 <= j < |x|
          ensures x[j].key % m.curSize == k
        {
          if j < i {
            assert x[j] == b[j];
          } else {
            assert x[j] == b[j + 1];
          }
        }
      }
      InConcat(m.buf, b[i]);
      assert m.count >= 1 by {
        assert b[i] in Entries(m);
      }
      SetBucket(m, k, x, m.count - 1);
      var r := Remove(m, key).1;
      assert r == m.(buf := m.buf[k := x], count := m.count - 1);
      Exchange(multiset(Entries(r)), multiset(Entries(m)), multiset(b), multiset(x), multiset{b[i]}, multiset{});
  }

  /** Removing right after an add that did not resize takes back exactly
      the added slot: the map is as before. */
  lemma RemoveUndoesAdd<D>(m: Table<D>, key: Key, data: D)
    requires Shaped(m) && !Full(m)
    ensures Remove(Add(m, key, data, Alloc(true, true, true)).1, key) == (Some(data), m)
  {
    var k := Bucket(m, key);
    var s := Slot(key, data);
    var p := Add(m, key, data, Alloc(true, true, true)).1;
    assert p == Put(m, s);
    assert Bucket(p, key) == k;
    var b := p.buf[k];
    assert b == [s] + m.buf[k];
    assert Find(b, key) == Some(0);
    assert b[..0] + b[0 + 1..] == m.buf[k];
    assert p.buf[k := m.buf[k]] == m.buf;
  }

  /** ts_algo_map_remove as written: the slot's node is unlinked with the
      list remove of src/tsalgo/list.c, which dereferences NULL when the node
      is the only one of its list (LinkedList.RemoveAsWritten). So removing
      the only slot of a bucket crashes: None. Every other call is Remove. */
  function RemoveAsWritten<D>(m: Table<D>, key: Key): (r: Option<(Option<D>, Table<D>)>)
    requires Shaped(m)
    ensures var b := m.buf[Bucket(m, key)];
            r.None? <==> Find(b, key).Some? && |b| == 1
    ensures r.Some? ==> r.value == Remove(m, key)
  {
    var b := m.buf[Bucket(m, key)];
    if Find(b, key).Some? && |b| == 1 then None else Some(Remove(m, key))
  }

  /** The map after init with one bucket and the add of key 0: removing
      key 0 again crashes as written, where the corrected remove gives the
      data back and leaves the empty map. */
  lemma RemoveOnlySlot()
    ensures var m0: Table<int> := Empty(1, 1, false);
            var m1 := Add(m0, 0, 20, Alloc(true, true, true)).1;
            && Get(m1, 0) == Some(20)
            && RemoveAsWritten(m1, 0).None?
            && Remove(m1, 0) == (Some(20), m0)
  {
    var m0: Table<int> := Empty(1, 1, false);
    assert m0.buf == [[]] && Bucket(m0, 0) == 0;
    var m1 := Add(m0, 0, 20, Alloc(true, true, true)).1;
    assert m1 == Put(m0, Slot(0, 20));
    assert [Slot(0, 20)] + m0.buf[0] == [Slot(0, 20)];
    assert m1.buf == [[Slot(0, 20)]];
    RemoveUndoesAdd(m0, 0, 20);
    PutGet(m0, Slot(0, 20));
  }

  /** The second argument of the delete callback, a `void **`: the
      address of a variable that holds the data (Ref), as the bucket
      destroy passes it, or the data pointer itself (Raw), which the
      callback then takes for such an address. */
  datatype DelArg<D> = Ref(data: D) | Raw(data: D)

  /** ts_algo_map_delete as written: remove, and hand the removed data to
      the delete callback if there is one, passing the data pointer where
      the callback expects its address. */
  function DeleteAsWritten<D>(m: Table<D>, key: Key): (r: (Table<D>, Option<DelArg<D>>))
    requires Shaped(m)
    ensures r.1.Some? ==> r.1.value.Raw?
  {
    var x := Remove(m, key);
    (x.1, if m.del && x.0.Some? then Some(Raw(x.0.value)) else None)
  }

  /** ts_algo_map_delete with the callback given the address of the
      removed data, as the bucket destroy gives it. */
  function Delete<D>(m: Table<D>, key: Key): (r: (Table<D>, Option<DelArg<D>>))
    requires Shaped(m)
    ensures r.1.Some? ==> r.1.value.Ref?
  {
    var x := Remove(m, key);
    (x.1, if m.del && x.0.Some? then Some(Ref(x.0.value)) else None)
  }

  /** Delete removes like Remove and passes the address of the removed
      data to del exactly when there is a callback. */
  lemma DeleteSpec<D>(m: Table<D>, key: Key)
    requires Wf(m)
    ensures Wf(Delete(m, key).0)
    ensures Delete(m, key).1.Some? <==> m.del && Get(m, key).Some?
    ensures Delete(m, key).1.Some? ==> Delete(m, key).1.value.Ref? && Delete(m, key).1.value.data == Get(m, key).value
    ensures Get(m, key).Some? ==> multiset(Entries(Delete(m, key).0)) + multiset{Slot(key, Get(m, key).value)} == multiset(Entries(m))
  {
    RemoveSpec(m, key);
  }

  /** As written, delete leaves the same map and calls del in the same
      cases, but hands it the data itself instead of its address. */
  lemma DeleteAsWrittenPassesData<D>(m: Table<D>, key: Key)
    requires Wf(m)
    ensures var w := DeleteAsWritten(m, key);
            var r := Delete(m, key);
            && w.0 == r.0 && (w.1.Some? <==> r.1.Some?)
            && (w.1.Some? ==> w.1.value == Raw(r.1.value.data) && w.1.value != r.1.value)
  {
  }

  /** With a delete callback, deleting a held key hands del the raw data
      as written, while destroy hands it the address. */
  lemma DeleteWithCallback()
    ensures var m0: Table<int> := Empty(1, 1, true);
            var m1 := Put(m0, Slot(0, 20));
            && DeleteAsWritten(m1, 0).1 == Some(Raw(20))
            && Delete(m1, 0).1 == Some(Ref(20))
            && Destroy(m1) == [20]
  {
    var m0: Table<int> := Empty(1, 1, true);
    assert m0.buf == [[]] && Bucket(m0, 0) == 0;
    var m1 := Put(m0, Slot(0, 20));
    assert [Slot(0, 20)] + m0.buf[0] == [Slot(0, 20)];
    assert m1.buf == [[Slot(0, 20)]] && m1.buf[1..] == [];
    assert Entries(m1) == [Slot(0, 20)] + Concat([]);
    assert Find(m1.buf[0], 0) == Some(0);
  }

  /** ts_algo_map_update: store new data in the first slot with the key and
      return it; None (NULL) and no change when the key is absent. */
  function Update<D>(m: Table<D>, key: Key, data: D): (r: (Option<D>, Table<D>))
    requires Shaped(m)
    ensures Shaped(r.1)
  {
    var k := Bucket(m, key);
    var b := m.buf[k];
    match Find(b, key)
    case None => (None, m)
    case Some(i) => (Some(data), m.(buf := m.buf[k := b[i := Slot(key, data)]]))
  }

  /** Update succeeds exactly when Get finds the key; then Get finds the
      new data, the slot Get found is replaced by one with the new data,
      and no other key's lookup changes. */
  lemma UpdateSpec<D>(m: Table<D>, key: Key, data: D)
    requires Wf(m)
    ensures var r := Update(m, key, data);
            && Wf(r.1) && r.1.count == m.count
            && (r.0.None? <==> Get(m, key).None?)
            && (r.0.None? ==> r.1 == m)
            && (r.0.Some? ==> && r.0 == Some(data) && Get(r.1, key) == Some(data)
                              && multiset(Entries(r.1)) + multiset{Slot(key, Get(m, key).value)}
                                 == multiset(Entries(m)) + multiset{Slot(key, data)})
  {
    var k := Bucket(m, key);
    var b := m.buf[k];
    match Find(b, key)
    case None =>
    case Some(i) =>
      var v := Slot(key, data);
      var x := b[i := v];
      assert b == b[..i] + [b[i]] + b[i + 1..];
      assert x == b[..i] + [v] + b[i + 1..];
      assert Home(m.curSize, k, x) by {
        forall j | 0 <= j < |x|
          ensures x[j].key % m.curSize == k
        {
          if j != i {
            assert x[j] == b[j];
          }
        }
      }
      SetBucket(m, k, x, m.count);
      var r := Update(m, key, data).1;
      assert r == m.(buf := m.buf[k := x], count := m.count);
      Exchange(multiset(Entries(r)), multiset(Entries(m)), multiset(b), multiset(x), multiset{b[i]}, multiset{v});
      FindSame(b, x, key, i);
  }

  /** Two buckets that agree up to a slot with the key find it at the same place. */
  lemma {:induction false} FindSame<D>(b: seq<Slot<D>>, x: seq<Slot<D>>, key: Key, i: nat)
    requires |b| == |x| && i < |b| && b[i].key == key && x[i].key == key
    requires forall j :: 0 <= j < i ==> b[j] == x[j]
    requires Find(b, key) == Some(i)
    ensures Find(x, key) == Some(i)
    decreases i
  {
    if i > 0 {
      FindSame(b[1..], x[1..], key, i - 1);
    }
  }

  /** Update leaves every other key's lookup alone. */
  lemma UpdateGetOther<D>(m: Table<D>, key: Key, data: D, other: Key)
    requires Shaped(m) && other != key
    ensures Get(Update(m, key, data).1, other) == Get(m, other)
  {
    var k := Bucket(m, key);
    var b := m.buf[k];
    match Find(b, key)
    case None =>
    case Some(i) =>
      if Bucket(m, other) == k {
        FindOther(b, Slot(key, data), i, other);
      }
  }

  /** Overwriting a slot with one of another key does not move the first
      slot of `key`, nor its data. */
  lemma {:induction false} FindOther<D>(b: seq<Slot<D>>, s: Slot<D>, i: nat, key: Key)
    requires i < |b| && b[i].key == s.key && s.key != key
    ensures var x := b[i := s];
            && Find(x, key) == Find(b, key)
            && (Find(b, key).Some? ==> x[Find(b, key).value] == b[Find(b, key).value])
    decreases |b|
  {
    if i > 0 && b[0].key != key {
      assert b[i := s][1..] == b[1..][i - 1 := s];
      FindOther(b[1..], s, i - 1, key);
    } else if i == 0 {
      assert b[i := s][1..] == b[1..];
    }
  }

  // ------------------------------------------------------------ iterator

  /** ts_algo_map_it_t: how many advances so far, and the bucket and the
      position in it the iterator points at. */
  datatype Cursor = Cursor(count: nat, slot: nat, entry: nat)

  /** The length of bucket `s` (none beyond the array). */
  function Len<D>(m: Table<D>, s: nat): nat {
    if s < |m.buf| then |m.buf[s]| else 0
  }

  /** The do-while of advance: from bucket `s` on, the first non-empty
      bucket, or curSize. */
  function Skip<D>(m: Table<D>, s: nat): (r: nat)
    ensures s <= r && (r > s ==> r <= m.curSize)
    ensures r < m.curSize ==> Len(m, r) > 0
    decreases m.curSize - s
  {
    if s < m.curSize && Len(m, s) == 0 then Skip(m, s + 1) else s
  }

  /** ts_algo_map_it_advance: count the step; unless that reaches the
      map's count, move to the next slot of the bucket or to the head of
      the next non-empty bucket. */
  function Advance<D>(it: Cursor, m: Table<D>): (r: Cursor)
    ensures r.count == it.count + 1
  {
    var c := it.count + 1;
    if c >= m.count then it.(count := c)
    else if it.entry + 1 >= Len(m, it.slot) then Cursor(c, Skip(m, it.slot + 1), 0)
    else Cursor(c, it.slot, it.entry + 1)
  }

  /** ts_algo_map_iterate and ts_algo_map_it_reset: start at the first slot
      of bucket 0 and advance once. */
  function Reset<D>(m: Table<D>): Cursor {
    Advance(Cursor(0, 0, 0), m)
  }

  /** ts_algo_map_it_eof. */
  predicate Eof<D>(it: Cursor, m: Table<D>) {
    it.count > m.count
  }

  /** ts_algo_map_it_get: the slot the iterator points at; None (NULL) at
      the end or where the bucket has no such slot. */
  function ItGet<D>(it: Cursor, m: Table<D>): Option<Slot<D>> {
    if Eof(it, m) then None
    else if it.slot < |m.buf| && it.entry < |m.buf[it.slot]| then Some(m.buf[it.slot][it.entry])
    else None
  }

  /** The slots a loop `for (; !eof; advance) get` sees from `it` on. */
  function Walk<D>(it: Cursor, m: Table<D>): seq<Option<Slot<D>>>
    decreases m.count + 1 - it.count
  {
    if Eof(it, m) then [] else [ItGet(it, m)] + Walk(Advance(it, m), m)
  }

  /** The slots an iteration over the whole map sees (copyall's loop). */
  function Iterate<D>(m: Table<D>): seq<Option<Slot<D>>> {
    Walk(Reset(m), m)
  }

  lemma {:induction false} WalkLength<D>(it: Cursor, m: Table<D>)
    requires it.count <= m.count + 1
    ensures |Walk(it, m)| == m.count + 1 - it.count
    decreases m.count + 1 - it.count
  {
    if !Eof(it, m) {
      WalkLength(Advance(it, m), m);
    }
  }

  /** The loop body of an iteration runs exactly `count` times, whatever
      the buckets hold. */
  lemma IterateLength<D>(m: Table<D>)
    ensures |Iterate(m)| == m.count
  {
    WalkLength(Reset(m), m);
  }

  /** Slots as non-NULL results. */
  function Somes<X>(s: seq<X>): (r: seq<Option<X>>)
    ensures |r| == |s|
  {
    if |s| == 0 then [] else [Some(s[0])] + Somes(s[1..])
  }

  /** How many slots the buckets before bucket `s` hold: the position of
      bucket `s`'s head among the entries. */
  function Before<X>(b: seq<seq<X>>, s: nat): nat
    requires s <= |b|
  {
    |Concat(b[..s])|
  }

  lemma BeforeNext<X>(b: seq<seq<X>>, s: nat)
    requires s < |b|
    ensures Before(b, s + 1) == Before(b, s) + |b[s]|
  {
    assert b[..s + 1] == b[..s] + [b[s]];
    ConcatAppend(b[..s], [b[s]]);
    assert [b[s]][1..] == [];
  }

  lemma BeforeAll<X>(b: seq<seq<X>>)
    ensures Before(b, |b|) == |Concat(b)|
  {
    assert b[..|b|] == b;
  }

  /** Slot `e` of bucket `s` is entry Before(b, s) + e. */
  lemma PosIndex<X>(b: seq<seq<X>>, s: nat, e: nat)
    requires s < |b| && e < |b[s]|
    ensures Before(b, s) + e < |Concat(b)| && Concat(b)[Before(b, s) + e] == b[s][e]
  {
    ConcatSplit(b, s);
  }

  /** Skipping empty buckets does not move past any slot. */
  lemma {:induction false} SkipBefore<D>(m: Table<D>, s: nat)
    requires Shaped(m) && s <= |m.buf|
    ensures Skip(m, s) <= |m.buf| && Before(m.buf, Skip(m, s)) == Before(m.buf, s)
    decreases |m.buf| - s
  {
    if s < |m.buf| && Len(m, s) == 0 {
      BeforeNext(m.buf, s);
      SkipBefore(m, s + 1);
    }
  }

  /** The iterator points at slot `it.entry` of bucket `it.slot`. */
  predicate At<D>(it: Cursor, m: Table<D>) {
    it.slot < |m.buf| && it.entry < |m.buf[it.slot]|
  }

  /** An advance that moves goes from one entry to the next. */
  lemma MoveStep<D>(it: Cursor, m: Table<D>)
    requires Shaped(m) && At(it, m) && it.count + 1 < m.count
    requires Before(m.buf, it.slot) + it.entry + 1 < |Entries(m)|
    ensures var n := Advance(it, m);
            At(n, m) && Before(m.buf, n.slot) + n.entry == Before(m.buf, it.slot) + it.entry + 1
  {
    if it.entry + 1 >= Len(m, it.slot) {
      BeforeNext(m.buf, it.slot);
      SkipBefore(m, it.slot + 1);
      BeforeAll(m.buf);
    }
  }

  /** From count `c` below the map's count, at entry `f`, the loop sees
      entries f .. f + count - c - 1 and then the last of them again: the
      final advance counts without moving. */
  lemma {:induction false} WalkFrom<D>(it: Cursor, m: Table<D>)
    requires Shaped(m) && 1 <= it.count < m.count && At(it, m)
    requires Before(m.buf, it.slot) + it.entry + m.count - it.count <= |Entries(m)|
    ensures var f := Before(m.buf, it.slot) + it.entry;
            var e := Entries(m);
            var l := m.count - it.count;
            Walk(it, m) == Somes(e[f..f + l]) + [Some(e[f + l - 1])]
    decreases m.count - it.count
  {
    var f := Before(m.buf, it.slot) + it.entry;
    var e := Entries(m);
    var l := m.count - it.count;
    PosIndex(m.buf, it.slot, it.entry);
    var n := Advance(it, m);
    assert Walk(it, m) == [Some(e[f])] + Walk(n, m);
    if l == 1 {
      assert n == it.(count := m.count);
      assert Walk(n, m) == [Some(e[f])] + Walk(Advance(n, m), m);
      assert e[f..f + 1][1..] == [];
    } else {
      MoveStep(it, m);
      WalkFrom(n, m);
      assert e[f..f + l][1..] == e[f + 1..f + 1 + (l - 1)];
    }
  }

  /** What an iteration over a well-formed map sees, with n = count and
      e the entries. The reset advance moves off the first slot of bucket
      0 when that bucket is not empty, and the last advance does not move:
      so with bucket 0 non-empty the loop sees e[1..] and e[n - 1] again,
      and otherwise e[..n - 1] and e[n - 2] again. One slot is never seen
      and one is seen twice whenever n >= 2; with n == 1 and bucket 0
      empty the only result is NULL. */
  lemma IterateVisits<D>(m: Table<D>)
    requires Wf(m)
    ensures var e := Entries(m);
            var n := m.count;
            var r := Iterate(m);
            && (n == 0 ==> r == [])
            && (n == 1 ==> r == [if |m.buf[0]| > 0 then Some(e[0]) else None])
            && (n >= 2 && |m.buf[0]| > 0 ==> r == Somes(e[1..]) + [Some(e[n - 1])])
            && (n >= 2 && |m.buf[0]| == 0 ==> r == Somes(e[..n - 1]) + [Some(e[n - 2])])
  {
    var e := Entries(m);
    var n := m.count;
    var it := Reset(m);
    assert m.buf[..0] == [];
    if n == 1 {
      assert Iterate(m) == [ItGet(it, m)] + Walk(Advance(it, m), m);
      if |m.buf[0]| > 0 {
        PosIndex(m.buf, 0, 0);
      }
    } else if n >= 2 {
      var start := Cursor(0, 0, 0);
      if |m.buf[0]| > 0 {
        MoveStep(start, m);
        WalkFrom(it, m);
        assert e[1..1 + (n - 1)] == e[1..];
      } else {
        BeforeNext(m.buf, 0);
        SkipBefore(m, 1);
        BeforeAll(m.buf);
        WalkFrom(it, m);
      }
    }
  }

  // ------------------------------------------------------------ resize

  /** Adding a run of slots one by one (copyall's adds into the fourfold
      map, which never resize: see AddBounded). */
  function CopyInto<D>(t: Table<D>, items: seq<Slot<D>>): (r: Table<D>)
    requires Shaped(t)
    ensures Shaped(r) && r.curSize == t.curSize && r.count == t.count + |items|
    decreases |items|
  {
    if |items| == 0 then t else CopyInto(Put(t, items[0]), items[1..])
  }

  lemma {:induction false} CopyIntoSpec<D>(t: Table<D>, items: seq<Slot<D>>)
    requires Wf(t)
    ensures Wf(CopyInto(t, items))
    ensures multiset(Entries(CopyInto(t, items))) == multiset(Entries(t)) + multiset(items)
    decreases |items|
  {
    if |items| > 0 {
      PutSpec(t, items[0]);
      CopyIntoSpec(Put(t, items[0]), items[1..]);
      assert items == [items[0]] + items[1..];
    }
  }

  /** The end of bufresize: the map takes over the buckets of a fourfold
      map into which `items` were copied; its count stays. */
  function Rehash<D>(m: Table<D>, items: seq<Slot<D>>): (r: Table<D>)
    requires Shaped(m)
    ensures Shaped(r) && r.curSize == 4 * m.curSize
  {
    var t := CopyInto(Empty(4 * m.curSize, 4 * m.curSize, m.del), items);
    m.(curSize := t.curSize, buf := t.buf)
  }

  /** bufresize, as corrected: copy every entry into a fourfold map, then
      free the old slots without handing their data to del, since the new
      map holds that data. `ok` is false when the new bucket array cannot
      be allocated. The result is the code, the map and the data handed
      to del. */
  function Resize<D>(m: Table<D>, ok: bool): (r: (Rc, Table<D>, seq<D>))
    requires Shaped(m)
    ensures Shaped(r.1)
  {
    if !ok then (NoMem, m, []) else (Ok, Rehash(m, Entries(m)), [])
  }

  /** The corrected resize keeps a well-formed map well formed with the
      same slots and count in four times the buckets, and frees no data. */
  lemma ResizeSpec<D>(m: Table<D>, ok: bool)
    requires Wf(m)
    ensures var r := Resize(m, ok);
            && (r.0 == Ok <==> ok) && Wf(r.1) && r.2 == []
            && multiset(Entries(r.1)) == multiset(Entries(m)) && r.1.count == m.count
            && r.1.baseSize == m.baseSize && r.1.del == m.del
            && r.1.curSize == if ok then 4 * m.curSize else m.curSize
  {
    if ok {
      var z: Table<D> := Empty(4 * m.curSize, 4 * m.curSize, m.del);
      EmptyConcat(z.buf);
      CopyIntoSpec(z, Entries(m));
    }
  }

  /** A resize finds the same keys as before. */
  lemma ResizeFinds<D>(m: Table<D>, key: Key)
    requires Wf(m)
    ensures Get(Resize(m, true).1, key).None? <==> Get(m, key).None?
  {
    var r := Resize(m, true).1;
    ResizeSpec(m, true);
    SameMembers(Entries(r), Entries(m));
    GetSpec(m, key);
    GetSpec(r, key);
  }

  /** A resize finds a key whose slots all carry the same data with that
      data. */
  lemma ResizeGetOnly<D>(m: Table<D>, key: Key, d: D)
    requires Wf(m) && Slot(key, d) in Entries(m)
    requires forall s :: s in Entries(m) && s.key == key ==> s.data == d
    ensures Get(Resize(m, true).1, key) == Some(d)
  {
    var r := Resize(m, true).1;
    ResizeSpec(m, true);
    SameMembers(Entries(r), Entries(m));
    forall s | s in Entries(r) && s.key == key
      ensures s.data == d
    {
      assert s in multiset(Entries(r));
    }
    GetOnly(r, key, d);
  }

  lemma SameMembers<X>(a: seq<X>, b: seq<X>)
    requires multiset(a) == multiset(b)
    ensures forall x :: x in a <==> x in b
  {
    forall x
      ensures x in a <==> x in b
    {
      assert x in a <==> x in multiset(a);
      assert x in b <==> x in multiset(b);
    }
  }

  /** The non-NULL results of an iteration, in order. */
  function Copied<D>(v: seq<Option<Slot<D>>>): (r: seq<Slot<D>>)
    ensures |r| <= |v|
  {
    if |v| == 0 then []
    else (match v[0] case None => [] case Some(s) => [s]) + Copied(v[1..])
  }

  lemma {:induction false} CopiedSomes<D>(s: seq<Slot<D>>)
    ensures Copied(Somes(s)) == s
    decreases |s|
  {
    if |s| > 0 {
      assert Somes(s)[1..] == Somes(s[1..]);
      CopiedSomes(s[1..]);
    }
  }

  /** All the data a map holds, handed to del by ts_algo_map_destroy when
      there is a callback (the slots and buckets are freed in any case). */
  function Destroy<D>(m: Table<D>): (r: seq<D>)
    ensures r == [] || r == Datas(Entries(m))
  {
    if m.del then Datas(Entries(m)) else []
  }

  /** bufresize as written: copyall adds the slots the iterator yields, so
      it copies what IterateVisits describes, and destroying the swapped
      out old buckets hands all their data to del. */
  function ResizeAsWritten<D>(m: Table<D>, ok: bool): (r: (Rc, Table<D>, seq<D>))
    requires Shaped(m)
    ensures Shaped(r.1)
  {
    if !ok then (NoMem, m, []) else (Ok, Rehash(m, Copied(Iterate(m))), Destroy(m))
  }

  /** ts_algo_map_add as written, with bufresize as written; the result
      also holds the data the resize handed to del. */
  function AddAsWritten<D>(m: Table<D>, key: Key, data: D, a: Alloc): (r: (Rc, Table<D>, seq<D>))
    requires Shaped(m)
    ensures Shaped(r.1)
  {
    var g := if Full(m) then ResizeAsWritten(m, a.table) else (Ok, m, []);
    if g.0 != Ok then g
    else if !a.slot then (NoMem, g.1, g.2)
    else if !a.node then (Err, g.1.(count := g.1.count + 1), g.2)
    else (Ok, Put(g.1, Slot(key, data)), g.2)
  }

  /** The map after init with one bucket, add of key 0 and add of key 1. */
  function TwoKeys(): Table<int> {
    var ok := Alloc(true, true, true);
    var m0 := Empty(1, 1, true);
    var m1 := Add(m0, 0, 20, ok).1;
    Add(m1, 1, 10, ok).1
  }

  /** The add of key 2 to that map resizes it as written: the iterator
      skips key 1's slot and sees key 0's twice, so afterwards key 1 is
      gone and key 0 is there twice, and del has been handed the data 20
      that the map still holds. The corrected add keeps key 1. */
  lemma AddAsWrittenLosesKey()
    ensures var m := TwoKeys();
            var r := AddAsWritten(m, 2, 30, Alloc(true, true, true));
            && Wf(m) && Get(m, 1) == Some(10) && Full(m)
            && r.0 == Ok && Get(r.1, 1) == None
            && multiset(Entries(r.1))[Slot(0, 20)] == 2
            && 20 in r.2 && Get(r.1, 0) == Some(20)
            && Get(Add(m, 2, 30, Alloc(true, true, true)).1, 1) == Some(10)
  {
    var m := TwoKeys();
    TwoKeysShape();
    var t := ResizeAsWritten(m, true);
    AsWrittenResizeOfTwoKeys();
    var r := AddAsWritten(m, 2, 30, Alloc(true, true, true));
    assert r == (Ok, Put(t.1, Slot(2, 30)), t.2);
    assert Bucket(t.1, 2) == 2;
    assert [Slot(2, 30)] + t.1.buf[2] == [Slot(2, 30)];
    assert r.1.buf == [[Slot(0, 20), Slot(0, 20)], [], [Slot(2, 30)], []];
    ConcatThree([Slot(0, 20), Slot(0, 20)], [Slot(2, 30)]);
    CorrectAddKeepsKey();
  }

  /** The buckets of the two-key map: key 1's slot before key 0's. */
  lemma TwoKeysShape()
    ensures var m := TwoKeys();
            && m.buf == [[Slot(1, 10), Slot(0, 20)]] && m.count == 2 && m.curSize == 1 && m.del
            && Entries(m) == [Slot(1, 10), Slot(0, 20)] && Wf(m)
  {
    var ok := Alloc(true, true, true);
    var m0: Table<int> := Empty(1, 1, true);
    assert m0.buf == [[]] && m0.curSize == 1;
    assert Bucket(m0, 0) == 0;
    var m1 := Add(m0, 0, 20, ok).1;
    assert m1 == Put(m0, Slot(0, 20));
    assert [Slot(0, 20)] + m0.buf[0] == [Slot(0, 20)];
    assert m1.buf == [[Slot(0, 20)]] && m1.curSize == 1;
    assert Bucket(m1, 1) == 0;
    var m := Add(m1, 1, 10, ok).1;
    assert m == Put(m1, Slot(1, 10));
    assert [Slot(1, 10)] + m1.buf[0] == [Slot(1, 10), Slot(0, 20)];
    assert m.buf == [[Slot(1, 10), Slot(0, 20)]];
    assert m.buf[1..] == [];
    assert Entries(m) == [Slot(1, 10), Slot(0, 20)] + Concat([]);
  }

  /** The resize as written of the two-key map. */
  lemma AsWrittenResizeOfTwoKeys()
    ensures var t := ResizeAsWritten(TwoKeys(), true);
            && t.1.buf == [[Slot(0, 20), Slot(0, 20)], [], [], []] && t.1.curSize == 4 && t.1.count == 2
            && t.2 == [10, 20]
  {
    var m := TwoKeys();
    TwoKeysShape();
    IterateVisits(m);
    var e := Entries(m);
    assert e[1..] == [Slot(0, 20)];
    assert Somes(e[1..]) == [Some(Slot(0, 20))];
    assert Iterate(m) == [Some(Slot(0, 20)), Some(Slot(0, 20))];
    assert Copied(Iterate(m)) == [Slot(0, 20), Slot(0, 20)];
    var z: Table<int> := Empty(4, 4, true);
    assert z.buf == [[], [], [], []];
    var z1 := Put(z, Slot(0, 20));
    assert z1.buf == [[Slot(0, 20)], [], [], []];
    var z2 := Put(z1, Slot(0, 20));
    assert z2.buf == [[Slot(0, 20), Slot(0, 20)], [], [], []];
    assert CopyInto(z, [Slot(0, 20), Slot(0, 20)]) == z2;
    assert Datas(e) == [10, 20];
  }

  lemma ConcatThree<X>(a: seq<X>, b: seq<X>)
    ensures Concat([a, [], b, []]) == a + b
  {
    var e: seq<seq<X>> := [[]];
    assert e[1..] == [];
    assert Concat(e) == [];
    assert [b, []][1..] == e;
    assert Concat([b, []]) == b;
    assert [[], b, []][1..] == [b, []];
    assert Concat([[], b, []]) == b;
    assert [a, [], b, []][1..] == [[], b, []];
  }

  /** The corrected add of key 2 to the two-key map keeps key 1. */
  lemma CorrectAddKeepsKey()
    ensures Get(Add(TwoKeys(), 2, 30, Alloc(true, true, true)).1, 1) == Some(10)
  {
    var m := TwoKeys();
    TwoKeysShape();
    var r := Resize(m, true).1;
    ResizeGetOnly(m, 1, 10);
    PutGetOther(r, Slot(2, 30), 1);
  }

  /** As written, a resize of a map of two slots or more copies what the
      iteration yields: every entry position but one, and one twice. */
  lemma ResizeAsWrittenCopies<D>(m: Table<D>)
    requires Wf(m) && m.count >= 2
    ensures var e := Entries(m);
            var n := m.count;
            ResizeAsWritten(m, true).1 == Rehash(m, if |m.buf[0]| > 0 then e[1..] + [e[n - 1]] else e[..n - 1] + [e[n - 2]])
  {
    var e := Entries(m);
    var n := m.count;
    IterateVisits(m);
    var u := if |m.buf[0]| > 0 then e[1..] else e[..n - 1];
    var l := if |m.buf[0]| > 0 then e[n - 1] else e[n - 2];
    assert Iterate(m) == Somes(u) + [Some(l)];
    CopiedAppend(Somes(u), [Some(l)]);
    CopiedSomes(u);
    assert [Some(l)][1..] == [];
    assert Copied(Iterate(m)) == u + [l];
  }

  lemma {:induction false} CopiedAppend<D>(a: seq<Option<Slot<D>>>, b: seq<Option<Slot<D>>>)
    ensures Copied(a + b) == Copied(a) + Copied(b)
    decreases |a|
  {
    if |a| > 0 {
      assert (a + b)[1..] == a[1..] + b;
      CopiedAppend(a[1..], b);
    } else {
      assert a + b == b;
    }
  }
}
