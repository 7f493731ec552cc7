// kernel/lib/hash.c: open addressing without wrap-around, growing by rehashing into a table twice the size.
module HashTables {
  import opened Common
  import opened Arith

  const HASH_BOUND: nat := 0x1_0000_0000_0000_0000

  // fnv_hash yields a 64-bit value; nothing else about it is used.
  type Hash = h: nat | h < HASH_BOUND

  // ----- the index mask -----

  // Bitwise and of two natural numbers.
  function And(a: nat, b: nat): nat {
    if a == 0 || b == 0 then 0 else (a % 2) * (b % 2) + 2 * And(a / 2, b / 2)
  }

  predicate IsPow2(c: nat) { c == 1 || (c > 1 && c % 2 == 0 && IsPow2(c / 2)) }

  lemma HalfMod(h: nat, d: nat)
    requires d > 0
    ensures h % (2 * d) == h % 2 + 2 * ((h / 2) % d)
  {
    var q, r := (h / 2) / d, (h / 2) % d;
    assert h == 2 * (h / 2) + h % 2;
    assert h / 2 == d * q + r;
    assert h == (2 * d) * q + (2 * r + h % 2);
    DivUnique(h, 2 * d, q, 2 * r + h % 2);
  }

  // hash & (capacity - 1) is the remainder modulo a power-of-two capacity.
  lemma {:induction false} MaskIsMod(h: nat, c: nat)
    requires IsPow2(c)
    ensures And(h, c - 1) == h % c
  {
    if h == 0 || c == 1 {
    } else {
      var d := c / 2;
      MaskIsMod(h / 2, d);
      HalfMod(h, d);
      assert (c - 1) % 2 == 1 && (c - 1) / 2 == d - 1;
      if d == 1 { assert And(h / 2, 0) == 0; }
    }
  }

  lemma ModBelow(h: nat, c: nat)
    requires c > 0
    ensures h % c < c && h % c <= h
  {
    if h >= c { assert h % c < c; }
  }

  lemma MaskBelow(h: nat, c: nat, m: nat)
    requires IsPow2(c) && m == c - 1
    ensures And(h, m) < c && And(h, m) <= h
  {
    MaskIsMod(h, c);
    ModBelow(h, c);
  }

  // ----- counting -----

  function Filled<K>(keys: seq<Option<K>>): nat {
    if keys == [] then 0 else Filled(keys[..|keys| - 1]) + if keys[|keys| - 1].Some? then 1 else 0
  }

  lemma {:induction false} FilledSet<K>(keys: seq<Option<K>>, i: nat, k: Option<K>)
    requires i < |keys|
    ensures Filled(keys[i := k]) == Filled(keys) - (if keys[i].Some? then 1 else 0) + (if k.Some? then 1 else 0)
  {
    var n := |keys| - 1;
    if i < n {
      FilledSet(keys[..n], i, k);
      assert keys[i := k][..n] == keys[..n][i := k];
    } else {
      assert keys[i := k][..n] == keys[..n];
    }
  }

  lemma {:induction false} FilledNone<K>(keys: seq<Option<K>>)
    requires forall i | 0 <= i < |keys| :: keys[i] == None
    ensures Filled(keys) == 0
  {
    if keys != [] { FilledNone(keys[..|keys| - 1]); }
  }

  // If every slot from h on is filled, there are at least as many.
  lemma {:induction false} FilledFrom<K>(keys: seq<Option<K>>, h: nat)
    requires forall i | h <= i < |keys| :: keys[i].Some?
    ensures |keys| - h <= Filled(keys)
  {
    if |keys| > h { FilledFrom(keys[..|keys| - 1], h); }
  }

  lemma {:induction false} FilledPrefix<K>(keys: seq<Option<K>>, i: nat)
    requires i <= |keys|
    ensures Filled(keys[..i]) <= Filled(keys)
  {
    if i < |keys| {
      FilledPrefix(keys[..|keys| - 1], i);
      assert keys[..|keys| - 1][..i] == keys[..i];
    } else {
      assert keys[..i] == keys;
    }
  }

  // With room for every hash and every key, a free slot is left after any home slot.
  lemma RoomForAll<K>(keys: seq<Option<K>>, h: Hash)
    requires IsPow2(|keys|) && HASH_BOUND + Filled(keys) <= |keys|
    ensures exists i :: Home(h, |keys|) <= i < |keys| && keys[i] == None
  {
    MaskBelow(h, |keys|, |keys| - 1);
    if forall i | Home(h, |keys|) <= i < |keys| :: keys[i].Some? {
      FilledFrom(keys, Home(h, |keys|));
    }
  }

  // ----- slots -----

  // hash & (capacity - 1)
  function Home(h: nat, capacity: nat): nat
    requires capacity > 0
  {
    And(h, capacity - 1)
  }

  lemma HomeIsMod(h: nat, capacity: nat)
    requires IsPow2(capacity)
    ensures Home(h, capacity) == h % capacity
  {
    MaskIsMod(h, capacity);
  }

  // The key in slot `i` is recorded there and sits at or after its home slot.
  ghost predicate SlotOk<K, V>(hash: K -> Hash, keys: seq<Option<K>>, data: seq<Option<V>>, pos: map<K, nat>, i: nat)
    requires i < |keys| == |data|
  {
    keys[i].Some? ==>
      keys[i].value in pos && pos[keys[i].value] == i && data[i].Some? && Home(hash(keys[i].value), |keys|) <= i
  }

  // Every key is stored once, at or after its home slot; `pos` gives its slot.
  ghost predicate Stored<K, V>(hash: K -> Hash, keys: seq<Option<K>>, data: seq<Option<V>>, pos: map<K, nat>) {
    && |keys| == |data|
    && (|keys| == 0 || IsPow2(|keys|))
    && (forall k | k in pos :: pos[k] < |keys| && keys[pos[k]] == Some(k))
    && (forall i | 0 <= i < |keys| :: SlotOk(hash, keys, data, pos, i))
  }

  ghost function Meaning<K, V>(data: seq<Option<V>>, pos: map<K, nat>): (m: map<K, V>)
    requires forall k | k in pos :: pos[k] < |data| && data[pos[k]].Some?
    ensures m.Keys == pos.Keys
  {
    map k | k in pos :: data[pos[k]].value
  }

  // No free slot lies between the home of `k` and its place.
  ghost predicate NoHoleBefore<K>(hash: K -> Hash, keys: seq<Option<K>>, pos: map<K, nat>, k: K)
    requires |keys| > 0 && k in pos && pos[k] <= |keys|
  {
    forall i | Home(hash(k), |keys|) <= i < pos[k] :: keys[i].Some?
  }

  lemma StoredData<K, V>(hash: K -> Hash, keys: seq<Option<K>>, data: seq<Option<V>>, pos: map<K, nat>)
    requires Stored(hash, keys, data, pos)
    ensures forall k | k in pos :: pos[k] < |data| && data[pos[k]].Some?
  {
    forall k | k in pos
      ensures pos[k] < |data| && data[pos[k]].Some?
    {
      assert SlotOk(hash, keys, data, pos, pos[k]);
    }
  }

  lemma ClearSlot<K, V>(hash: K -> Hash, keys: seq<Option<K>>, data: seq<Option<V>>, pos: map<K, nat>, k: K)
    requires Stored(hash, keys, data, pos) && k in pos
    ensures Stored(hash, keys[pos[k] := None], data[pos[k] := None], pos - {k})
  {
    var i := pos[k];
    var keys', data', pos' := keys[i := None], data[i := None], pos - {k};
    forall j | 0 <= j < |keys'|
      ensures SlotOk(hash, keys', data', pos', j)
    {
      assert SlotOk(hash, keys, data, pos, j);
    }
  }

  lemma FillSlot<K, V>(hash: K -> Hash, keys: seq<Option<K>>, data: seq<Option<V>>, pos: map<K, nat>, k: K, v: V,
                       i: nat)
    requires Stored(hash, keys, data, pos) && i < |keys| && Home(hash(k), |keys|) <= i
    requires if k in pos then pos[k] == i else keys[i] == None
    ensures Stored(hash, keys[i := Some(k)], data[i := Some(v)], pos[k := i])
  {
    var keys', data', pos' := keys[i := Some(k)], data[i := Some(v)], pos[k := i];
    forall j | 0 <= j < |keys'|
      ensures SlotOk(hash, keys', data', pos', j)
    {
      assert SlotOk(hash, keys, data, pos, j);
    }
  }

  ghost predicate Dense<K>(hash: K -> Hash, keys: seq<Option<K>>, pos: map<K, nat>)
    requires forall k | k in pos :: pos[k] < |keys|
  {
    forall k | k in pos :: NoHoleBefore(hash, keys, pos, k)
  }

  // What the probing loop has established about slot `i`.
  ghost predicate Probed<K>(hash: K -> Hash, keys: seq<Option<K>>, k: K, i: nat) {
    && i < |keys| && Home(hash(k), |keys|) <= i
    && (forall j | Home(hash(k), |keys|) <= j < i :: keys[j].Some? && keys[j] != Some(k))
    && (keys[i] == None || keys[i] == Some(k))
  }

  // The probe stops at the key's own slot exactly when no free slot precedes it.
  lemma ProbeFindsKey<K, V>(hash: K -> Hash, keys: seq<Option<K>>, data: seq<Option<V>>, pos: map<K, nat>, k: K, i: nat)
    requires Stored(hash, keys, data, pos) && Probed(hash, keys, k, i) && k in pos
    ensures if NoHoleBefore(hash, keys, pos, k) then i == pos[k] else i < pos[k] && keys[i] == None
  {
    assert SlotOk(hash, keys, data, pos, pos[k]);
    assert SlotOk(hash, keys, data, pos, i);
  }

  lemma FillDense<K>(hash: K -> Hash, keys: seq<Option<K>>, pos: map<K, nat>, k: K, i: nat)
    requires (forall j | j in pos :: pos[j] < |keys|) && Dense(hash, keys, pos) && Probed(hash, keys, k, i)
    ensures Dense(hash, keys[i := Some(k)], pos[k := i])
  {
    var keys', pos' := keys[i := Some(k)], pos[k := i];
    forall j | j in pos'
      ensures NoHoleBefore(hash, keys', pos', j)
    {
      if j != k { assert NoHoleBefore(hash, keys, pos, j); }
    }
  }

  lemma FillMeaning<K, V>(hash: K -> Hash, keys: seq<Option<K>>, data: seq<Option<V>>, pos: map<K, nat>, k: K, v: V,
                          i: nat)
    requires Stored(hash, keys, data, pos) && i < |keys|
    requires forall j | j in pos :: data[pos[j]].Some?
    requires if k in pos then pos[k] == i else keys[i] == None
    ensures Meaning(data[i := Some(v)], pos[k := i]) == Meaning(data, pos)[k := v]
  {
    forall j | j in pos && j != k
      ensures pos[j] != i
    {
      assert keys[pos[j]] == Some(j);
    }
  }

  // In a table without duplicates the filled slots are the keys.
  lemma {:induction false} FilledIsKeys<K, V>(hash: K -> Hash, keys: seq<Option<K>>, data: seq<Option<V>>,
                                              pos: map<K, nat>, i: nat)
    requires Stored(hash, keys, data, pos) && i <= |keys|
    ensures Filled(keys[..i]) == |KeysBelow(pos, i)|
  {
    if i > 0 {
      FilledIsKeys(hash, keys, data, pos, i - 1);
      assert keys[..i][..i - 1] == keys[..i - 1];
      KeysBelowNext(hash, keys, data, pos, i - 1);
    } else {
      assert KeysBelow(pos, 0) == {};
    }
  }

  ghost function KeysBelow<K>(pos: map<K, nat>, i: nat): set<K> { set k | k in pos && pos[k] < i }

  lemma KeysBelowNext<K, V>(hash: K -> Hash, keys: seq<Option<K>>, data: seq<Option<V>>, pos: map<K, nat>, i: nat)
    requires Stored(hash, keys, data, pos) && i < |keys|
    ensures |KeysBelow(pos, i + 1)| == |KeysBelow(pos, i)| + if keys[i].Some? then 1 else 0
  {
    assert SlotOk(hash, keys, data, pos, i);
    if keys[i].Some? {
      assert KeysBelow(pos, i + 1) == KeysBelow(pos, i) + {keys[i].value};
    } else {
      assert KeysBelow(pos, i + 1) == KeysBelow(pos, i);
    }
  }

  // ----- tables that may hold a key more than once -----

  // Every filled slot has data and is at or after the home of its key.
  ghost predicate Loose<K, V>(hash: K -> Hash, keys: seq<Option<K>>, data: seq<Option<V>>) {
    && |keys| == |data| && (|keys| == 0 || IsPow2(|keys|))
    && forall i | 0 <= i < |keys| :: Seated(hash, keys, data, i)
  }

  ghost predicate Seated<K, V>(hash: K -> Hash, keys: seq<Option<K>>, data: seq<Option<V>>, i: nat)
    requires i < |keys| == |data|
  {
    keys[i].Some? ==> data[i].Some? && Home(hash(keys[i].value), |keys|) <= i
  }

  // The first slot from h on that holds the key.
  ghost function FirstAt<K>(keys: seq<Option<K>>, k: K, h: nat): (r: nat)
    ensures r <= |keys| && (r < |keys| ==> h <= r && keys[r] == Some(k))
    ensures forall i | h <= i < r :: keys[i] != Some(k)
    decreases |keys| - h
  {
    if h >= |keys| then |keys| else if keys[h] == Some(k) then h else FirstAt(keys, k, h + 1)
  }

  lemma FirstIs<K>(keys: seq<Option<K>>, k: K, h: nat, i: nat)
    requires h <= i <= |keys| && (forall j | h <= j < i :: keys[j] != Some(k)) && (i < |keys| ==> keys[i] == Some(k))
    ensures FirstAt(keys, k, h) == i
  {}

  // A slot that holds some other key, or none, before and after makes no difference.
  lemma {:induction false} FirstSame<K>(keys: seq<Option<K>>, i: nat, v: Option<K>, k: K, h: nat)
    requires i < |keys| && keys[i] != Some(k) && v != Some(k)
    ensures FirstAt(keys[i := v], k, h) == FirstAt(keys, k, h)
    decreases |keys| - h
  {
    if h < |keys| { FirstSame(keys, i, v, k, h + 1); }
  }

  // Where the key is found.
  ghost function Found<K>(hash: K -> Hash, keys: seq<Option<K>>, k: K): nat {
    if |keys| == 0 then 0 else FirstAt(keys, k, Home(hash(k), |keys|))
  }

  ghost function Lookup<K, V>(hash: K -> Hash, keys: seq<Option<K>>, data: seq<Option<V>>, k: K): Option<V>
    requires |keys| == |data|
  {
    if Found(hash, keys, k) < |keys| then data[Found(hash, keys, k)] else None
  }

  // Every search answers as the finite map.
  ghost predicate Agrees<K(!new), V>(hash: K -> Hash, keys: seq<Option<K>>, data: seq<Option<V>>, m: map<K, V>)
    requires |keys| == |data|
  {
    forall k :: Lookup(hash, keys, data, k) == if k in m then Some(m[k]) else None
  }

  // The key is in one slot at most.
  ghost predicate Single<K>(keys: seq<Option<K>>, k: K) {
    forall i, j | 0 <= i < j < |keys| :: !(keys[i] == Some(k) && keys[j] == Some(k))
  }

  // Taking the first copy of a key away changes no other answer, and leaves none for the key exactly if it had one
  // copy.
  lemma DeleteLookup<K, V>(hash: K -> Hash, keys: seq<Option<K>>, data: seq<Option<V>>, key: K, k: K)
    requires Loose(hash, keys, data) && Found(hash, keys, key) < |keys|
    ensures var f := Found(hash, keys, key);
      var after := Lookup(hash, keys[f := None], data[f := None], k);
      && (k != key ==> after == Lookup(hash, keys, data, k))
      && (k == key ==> (after == None <==> Single(keys, key)))
  {
    var f, h := Found(hash, keys, key), Home(hash(k), |keys|);
    MaskBelow(hash(k), |keys|, |keys| - 1);
    var keys', data' := keys[f := None], data[f := None];
    var r := FirstAt(keys', k, h);
    if k != key {
      FirstSame(keys, f, None, k, h);
    } else {
      if r < |keys| {
        assert keys[f] == Some(key) && keys[r] == Some(key) && f < r;
        assert Seated(hash, keys, data, r);
      } else {
        forall i | 0 <= i < |keys| && keys[i] == Some(key)
          ensures i == f
        {
          assert Seated(hash, keys, data, i);
          assert keys'[i] == if i == f then None else Some(key);
        }
      }
    }
  }

  // Deleting keeps the table in agreement with the finite map exactly if the key is in one slot at most.
  lemma DeleteAgrees<K(!new), V>(hash: K -> Hash, keys: seq<Option<K>>, data: seq<Option<V>>, m: map<K, V>, key: K)
    requires Loose(hash, keys, data) && Agrees(hash, keys, data, m) && Found(hash, keys, key) < |keys|
    ensures var f := Found(hash, keys, key);
      Agrees(hash, keys[f := None], data[f := None], m - {key}) <==> Single(keys, key)
  {
    var f := Found(hash, keys, key);
    var keys', data' := keys[f := None], data[f := None];
    forall k
      ensures k != key ==> Lookup(hash, keys', data', k) == Lookup(hash, keys, data, k)
    {
      DeleteLookup(hash, keys, data, key, k);
    }
    DeleteLookup(hash, keys, data, key, key);
    assert Lookup(hash, keys', data', key) == None <==> Single(keys, key);
  }

  // Filling the probed slot always does.
  lemma PutAgrees<K(!new), V>(hash: K -> Hash, keys: seq<Option<K>>, data: seq<Option<V>>, m: map<K, V>, key: K,
                              v: V, i: nat)
    requires Loose(hash, keys, data) && Agrees(hash, keys, data, m) && Probed(hash, keys, key, i)
    ensures Agrees(hash, keys[i := Some(key)], data[i := Some(v)], m[key := v])
  {
    var keys', data' := keys[i := Some(key)], data[i := Some(v)];
    forall k
      ensures Lookup(hash, keys', data', k) == if k == key then Some(v) else Lookup(hash, keys, data, k)
    {
      var h := Home(hash(k), |keys|);
      MaskBelow(hash(k), |keys|, |keys| - 1);
      if k == key {
        FirstIs(keys', k, h, i);
      } else {
        FirstSame(keys, i, Some(key), k, h);
      }
    }
  }

  // What re-inserting the first i slots in order comes to: the last copy of each key wins.
  ghost function Fold<K, V>(keys: seq<Option<K>>, data: seq<Option<V>>, i: nat): map<K, V>
    requires i <= |keys| == |data|
  {
    if i == 0 then map[]
    else if keys[i - 1].Some? && data[i - 1].Some? then Fold(keys, data, i - 1)[keys[i - 1].value := data[i - 1].value]
    else Fold(keys, data, i - 1)
  }

  // ----- the table -----

  class HashTable<K(==), V> {
    const hash: K -> Hash
    var keys: seq<Option<K>>
    var data: seq<Option<V>>
    ghost var pos: map<K, nat>   // the slot of each stored key

    constructor (hash: K -> Hash, capacity: nat)
      requires capacity == 0 || IsPow2(capacity)
      ensures this.hash == hash && |keys| == capacity && pos == map[]
      ensures Valid() && NoHoles() && Contents() == map[] && Sound() && Filled(keys) == 0
    {
      this.hash := hash;
      keys := Empty(capacity);
      data := Empty(capacity);
      pos := map[];
      new;
      FilledNone(keys);
    }

    ghost predicate Valid()
      reads this
    {
      Stored(hash, keys, data, pos)
    }

    // The finite map the table stands for.
    ghost function Contents(): (m: map<K, V>)
      requires Valid()
      reads this
      ensures m.Keys == pos.Keys
    {
      StoredData(hash, keys, data, pos);
      Meaning(data, pos)
    }

    // Every filled slot is at or after its home; a key may be there twice.
    ghost predicate Sound()
      reads this
    {
      Loose(hash, keys, data)
    }

    // No key has a free slot between its home and its place; true until the first delete.
    ghost predicate NoHoles()
      requires Valid()
      reads this
    {
      Dense(hash, keys, pos)
    }

    // The loop of hash_table_search and hash_table_delete.
    method Locate(key: K) returns (index: nat)
      requires |keys| > 0
      ensures index >= |keys| <==> Found(hash, keys, key) == |keys|
      ensures index < |keys| ==> index == Found(hash, keys, key)
    {
      ghost var h := Home(hash(key), |keys|);
      index := Home(hash(key), |keys|);
      while index < |keys| && keys[index] != Some(key)
        invariant h <= index && forall i | h <= i < index && i < |keys| :: keys[i] != Some(key)
      {
        index := index + 1;
      }
      if index < |keys| { FirstIs(keys, key, h, index); }
    }

    method Search(key: K) returns (r: Option<V>)
      requires Sound()
      ensures r == Lookup(hash, keys, data, key)
      ensures Valid() ==> r == if key in Contents() then Some(Contents()[key]) else None
    {
      if Valid() { LookupStored(hash, keys, data, pos, key); }
      if |keys| == 0 {
        return None;
      }
      var index := Locate(key);
      if index < |keys| {
        return data[index];
      }
      return None;
    }

    // The first copy of the key goes.
    method Delete(key: K)
      requires Sound()
      modifies this
      ensures Sound() && |keys| == |old(keys)| && Filled(keys) <= Filled(old(keys))
      ensures var f := Found(hash, old(keys), key);
        if f < |old(keys)| then keys == old(keys)[f := None] && data == old(data)[f := None]
        else keys == old(keys) && data == old(data)
      ensures old(Valid()) ==> Valid() && Contents() == old(Contents()) - {key}
    {
      if |keys| == 0 {
        return;
      }
      var index := Locate(key);
      Removed(hash, keys, data, pos, key);
      if index < |keys| {
        keys, data, pos := keys[index := None], data[index := None], pos - {key};
      }
    }

    // The probing loop of hash_table_push: the first slot from home on that is free or holds the key.
    method Probe(key: K) returns (index: nat)
      requires Sound() && |keys| > 0
      ensures if index < |keys| then Probed(hash, keys, key, index)
              else forall i | Home(hash(key), |keys|) <= i < |keys| :: keys[i].Some? && keys[i] != Some(key)
    {
      MaskBelow(hash(key), |keys|, |keys| - 1);
      index := Home(hash(key), |keys|);
      while index < |keys|
        invariant Home(hash(key), |keys|) <= index <= |keys|
        invariant forall i | Home(hash(key), |keys|) <= i < index :: keys[i].Some? && keys[i] != Some(key)
      {
        if keys[index] == None || keys[index] == Some(key) {
          return;
        }
        index := index + 1;
      }
    }

    // The first-use branch of hash_table_push.
    method FirstUse()
      requires Sound() && |keys| == 0
      modifies this
      ensures Sound() && keys == Empty(16) && data == Empty(16) && pos == old(pos) && Filled(keys) == 0
      ensures old(Valid()) ==> Valid() && NoHoles() && Contents() == old(Contents())
    {
      assert IsPow2(2) && IsPow2(4) && IsPow2(8) && IsPow2(16);
      keys := Empty(16);
      data := Empty(16);
      FilledNone(keys);
    }

    // keys[index] = key; data[index] = data;
    method Put(key: K, value: V, index: nat)
      requires Sound() && Probed(hash, keys, key, index)
      modifies this
      ensures Sound() && keys == old(keys)[index := Some(key)] && data == old(data)[index := Some(value)]
      ensures Filled(keys) <= Filled(old(keys)) + 1
      ensures old(Valid() && (key !in pos || NoHoleBefore(hash, keys, pos, key))) ==>
        && Valid() && Contents() == old(Contents())[key := value]
        && (old(NoHoles()) ==> NoHoles())
    {
      LooseSet(hash, keys, data, index, Some(key), Some(value));
      FilledSet(keys, index, Some(key));
      if Valid() && (key !in pos || NoHoleBefore(hash, keys, pos, key)) {
        if key in pos { ProbeFindsKey(hash, keys, data, pos, key, index); }
        assert SlotOk(hash, keys, data, pos, index);
        StoredData(hash, keys, data, pos);
        FillSlot(hash, keys, data, pos, key, value, index);
        FillMeaning(hash, keys, data, pos, key, value, index);
        if NoHoles() { FillDense(hash, keys, pos, key, index); }
      }
      keys := keys[index := Some(key)];
      data := data[index := Some(value)];
      pos := pos[key := index];
    }

    // hash_table_push. Without growth the probed slot is filled; with growth every key is re-inserted, slot by slot.
    // In a table that holds each key once this is a map update, unless the key is stored behind a free slot.
    method Push(key: K, value: V) returns (ghost at: Option<nat>)
      requires Sound()
      modifies this
      ensures Sound() && |keys| >= |old(keys)| && Filled(keys) <= Filled(old(keys)) + 1
      ensures at.Some? ==> var k0, d0 := Used(old(keys)), Used(old(data));
        && Probed(hash, k0, key, at.value)
        && |k0| == |d0| && keys == k0[at.value := Some(key)] && data == d0[at.value := Some(value)]
      ensures at.None? ==>
        && |old(keys)| > 0 && Valid() && NoHoles()
        && Contents() == Fold(old(keys), old(data), |old(keys)|)[key := value]
        && forall i | Home(hash(key), |old(keys)|) <= i < |old(keys)| :: old(keys)[i].Some? && old(keys)[i] != Some(key)
      ensures old(Valid() && (key in pos ==> |keys| > 0 && NoHoleBefore(hash, keys, pos, key))) ==>
        && Valid() && Contents() == old(Contents())[key := value]
        && (old(NoHoles()) ==> NoHoles())
      decreases HASH_BOUND + Filled(keys) + 1 - |keys|, 1
    {
      if |keys| == 0 {
        FirstUse();
      }
      var index := Probe(key);
      if index < |keys| {
        Put(key, value, index);
        at := Some(index);
      } else {
        MaskBelow(hash(key), |keys|, |keys| - 1);
        FilledFrom(keys, Home(hash(key), |keys|));
        if Valid() {
          FoldStored(hash, keys, data, pos);
          assert key in pos ==> SlotOk(hash, keys, data, pos, pos[key]);
        }
        Grow(key, value);
        at := None;
      }
    }

    // The second half of hash_table_push, when no slot from home on is free.
    method Grow(key: K, value: V)
      requires Sound() && 0 < |keys| < HASH_BOUND + Filled(keys) + 1
      modifies this
      ensures |keys| >= 2 * |old(keys)| && Filled(keys) <= Filled(old(keys)) + 1
      ensures Sound() && Valid() && NoHoles()
      ensures Contents() == Fold(old(keys), old(data), |old(keys)|)[key := value]
      decreases HASH_BOUND + Filled(keys) + 1 - |keys|, 0, 2
    {
      var expanded := Expand(hash, keys, data, key, value);
      keys, data, pos := expanded.keys, expanded.data, expanded.pos;
    }

    static method Expand(hash: K -> Hash, keys: seq<Option<K>>, data: seq<Option<V>>, key: K, value: V)
      returns (expanded: HashTable<K, V>)
      requires Loose(hash, keys, data) && 0 < |keys| < HASH_BOUND + Filled(keys) + 1
      ensures fresh(expanded) && expanded.Sound() && expanded.Valid() && expanded.NoHoles() && expanded.hash == hash
      ensures |expanded.keys| >= 2 * |keys| && Filled(expanded.keys) <= Filled(keys) + 1
      ensures expanded.Contents() == Fold(keys, data, |keys|)[key := value]
      decreases HASH_BOUND + Filled(keys) + 1 - |keys|, 0, 1
    {
      expanded := Rehash(hash, keys, data);
      ghost var at := expanded.Push(key, value);
    }

    // The rehashing loop.
    static method Rehash(hash: K -> Hash, keys: seq<Option<K>>, data: seq<Option<V>>)
      returns (expanded: HashTable<K, V>)
      requires Loose(hash, keys, data) && 0 < |keys| < HASH_BOUND + Filled(keys) + 1
      ensures fresh(expanded) && expanded.Sound() && expanded.Valid() && expanded.NoHoles() && expanded.hash == hash
      ensures |expanded.keys| >= 2 * |keys| && Filled(expanded.keys) <= Filled(keys)
      ensures expanded.Contents() == Fold(keys, data, |keys|)
      decreases HASH_BOUND + Filled(keys) + 1 - |keys|, 0, 0
    {
      expanded := new HashTable(hash, 2 * |keys|);
      for i := 0 to |keys|
        invariant expanded.Sound() && expanded.Valid() && expanded.NoHoles() && expanded.hash == hash && fresh(expanded)
        invariant |expanded.keys| >= 2 * |keys| && Filled(expanded.keys) <= Filled(keys[..i])
        invariant expanded.Contents() == Fold(keys, data, i)
      {
        assert Seated(hash, keys, data, i);
        FilledPrefix(keys, i);
        assert keys[..i + 1][..i] == keys[..i];
        if keys[i].Some? {
          ghost var at := expanded.Push(keys[i].value, data[i].value);
        }
      }
      assert keys[..|keys|] == keys;
    }
  }

  // The capacity after the first-use branch.
  ghost function Used<T>(slots: seq<Option<T>>): seq<Option<T>> {
    if slots == [] then Empty(16) else slots
  }

  function Empty<T>(n: nat): seq<Option<T>> { seq(n, _ => None) }

  lemma LooseSet<K, V>(hash: K -> Hash, keys: seq<Option<K>>, data: seq<Option<V>>, i: nat, k: Option<K>, v: Option<V>)
    requires Loose(hash, keys, data) && i < |keys| && (k.Some? ==> v.Some? && Home(hash(k.value), |keys|) <= i)
    ensures Loose(hash, keys[i := k], data[i := v])
  {
    var keys', data' := keys[i := k], data[i := v];
    forall j | 0 <= j < |keys'|
      ensures Seated(hash, keys', data', j)
    {
      assert Seated(hash, keys, data, j);
    }
  }

  lemma FoundStored<K, V>(hash: K -> Hash, keys: seq<Option<K>>, data: seq<Option<V>>, pos: map<K, nat>, k: K)
    requires Stored(hash, keys, data, pos)
    ensures if k in pos then Found(hash, keys, k) == pos[k] else Found(hash, keys, k) == |keys|
  {
    if |keys| > 0 {
      var f := Found(hash, keys, k);
      if f < |keys| { assert SlotOk(hash, keys, data, pos, f); }
      if k in pos { assert SlotOk(hash, keys, data, pos, pos[k]); }
    }
  }

  lemma Removed<K, V>(hash: K -> Hash, keys: seq<Option<K>>, data: seq<Option<V>>, pos: map<K, nat>, key: K)
    requires Loose(hash, keys, data)
    ensures var f := Found(hash, keys, key);
      f < |keys| ==> Loose(hash, keys[f := None], data[f := None]) && Filled(keys[f := None]) <= Filled(keys)
    ensures Stored(hash, keys, data, pos) ==>
      && (key in pos <==> Found(hash, keys, key) < |keys|)
      && (forall k | k in pos :: pos[k] < |data| && data[pos[k]].Some?)
      && (key in pos ==> var f := pos[key];
          && Found(hash, keys, key) == f && Stored(hash, keys[f := None], data[f := None], pos - {key})
          && (forall k | k in pos - {key} :: data[f := None][pos[k]].Some?)
          && Meaning(data[f := None], pos - {key}) == Meaning(data, pos) - {key})
  {
    var f := Found(hash, keys, key);
    if f < |keys| {
      LooseSet(hash, keys, data, f, None, None);
      FilledSet(keys, f, None);
    }
    if Stored(hash, keys, data, pos) {
      FoundStored(hash, keys, data, pos, key);
      StoredData(hash, keys, data, pos);
      if key in pos {
        ClearSlot(hash, keys, data, pos, key);
        forall k | k in pos && k != key
          ensures pos[k] != pos[key]
        {
          assert keys[pos[k]] == Some(k);
        }
      }
    }
  }

  lemma LookupStored<K, V>(hash: K -> Hash, keys: seq<Option<K>>, data: seq<Option<V>>, pos: map<K, nat>, k: K)
    requires Stored(hash, keys, data, pos)
    ensures Lookup(hash, keys, data, k) == if k in pos then data[pos[k]] else None
    ensures k in pos ==> data[pos[k]].Some?
  {
    FoundStored(hash, keys, data, pos, k);
    StoredData(hash, keys, data, pos);
  }

  // The part of the map held in the first `i` slots.
  ghost function FirstSlots<K, V>(data: seq<Option<V>>, pos: map<K, nat>, i: nat): map<K, V>
    requires forall k | k in pos :: pos[k] < |data| && data[pos[k]].Some?
  {
    map k | k in pos && pos[k] < i :: data[pos[k]].value
  }

  // Without duplicates, re-inserting all slots gives the map back.
  lemma FoldStored<K, V>(hash: K -> Hash, keys: seq<Option<K>>, data: seq<Option<V>>, pos: map<K, nat>)
    requires Stored(hash, keys, data, pos)
    ensures forall k | k in pos :: pos[k] < |data| && data[pos[k]].Some?
    ensures Fold(keys, data, |keys|) == Meaning(data, pos)
  {
    StoredData(hash, keys, data, pos);
    FoldIsFirst(hash, keys, data, pos, |keys|);
  }

  lemma {:induction false} FoldIsFirst<K, V>(hash: K -> Hash, keys: seq<Option<K>>, data: seq<Option<V>>,
                                             pos: map<K, nat>, i: nat)
    requires Stored(hash, keys, data, pos) && i <= |keys|
    requires forall k | k in pos :: pos[k] < |data| && data[pos[k]].Some?
    ensures Fold(keys, data, i) == FirstSlots(data, pos, i)
  {
    if i > 0 {
      FoldIsFirst(hash, keys, data, pos, i - 1);
      NextSlot(hash, keys, data, pos, i - 1);
    }
  }

  lemma NextSlot<K, V>(hash: K -> Hash, keys: seq<Option<K>>, data: seq<Option<V>>, pos: map<K, nat>, i: nat)
    requires Stored(hash, keys, data, pos) && i < |keys|
    requires forall k | k in pos :: pos[k] < |data| && data[pos[k]].Some?
    ensures keys[i].Some? ==>
      && keys[i].value in pos && data[i].Some?
      && FirstSlots(data, pos, i + 1) == FirstSlots(data, pos, i)[keys[i].value := data[i].value]
      && keys[i].value !in FirstSlots(data, pos, i)
    ensures keys[i].None? ==> FirstSlots(data, pos, i + 1) == FirstSlots(data, pos, i)
    ensures FirstSlots(data, pos, i).Keys <= pos.Keys
  {
    assert SlotOk(hash, keys, data, pos, i);
    forall k | k in pos && pos[k] == i
      ensures keys[i] == Some(k)
    {}
  }

  // ----- whole runs -----

  datatype Op<K, V> = PushOp(key: K, value: V) | SearchOp(key: K) | DeleteOp(key: K)

  ghost function Apply<K, V>(m: map<K, V>, op: Op<K, V>): map<K, V> {
    match op
    case PushOp(k, v) => m[k := v]
    case SearchOp(k) => m
    case DeleteOp(k) => m - {k}
  }

  ghost function Reply<K, V>(m: map<K, V>, op: Op<K, V>): seq<Option<V>> {
    if !op.SearchOp? then [] else if op.key in m then [Some(m[op.key])] else [None]
  }

  // The finite map after a run of operations from the empty one.
  ghost function After<K, V>(ops: seq<Op<K, V>>): map<K, V> {
    if ops == [] then map[] else Apply(After(ops[..|ops| - 1]), ops[|ops| - 1])
  }

  // What a finite map would answer to the searches of a run, in order.
  ghost function Answers<K, V>(ops: seq<Op<K, V>>): seq<Option<V>> {
    if ops == [] then []
    else Answers(ops[..|ops| - 1]) + Reply(After(ops[..|ops| - 1]), ops[|ops| - 1])
  }

  ghost predicate NoDelete<K, V>(ops: seq<Op<K, V>>) {
    forall j | 0 <= j < |ops| :: !ops[j].DeleteOp?
  }

  // Each push is on an absent key, or comes before the first delete.
  ghost predicate Allowed<K, V>(ops: seq<Op<K, V>>) {
    forall i | 0 <= i < |ops| && ops[i].PushOp? :: ops[i].key !in After(ops[..i]) || NoDelete(ops[..i])
  }

  lemma NextOp<K, V>(ops: seq<Op<K, V>>, i: nat)
    requires i < |ops|
    ensures After(ops[..i + 1]) == Apply(After(ops[..i]), ops[i])
    ensures Answers(ops[..i + 1]) == Answers(ops[..i]) + Reply(After(ops[..i]), ops[i])
    ensures NoDelete(ops[..i + 1]) ==> NoDelete(ops[..i]) && !ops[i].DeleteOp?
  {
    assert ops[..i + 1][..i] == ops[..i];
    assert ops[..i + 1][i] == ops[i];
  }

  method Perform<K(==), V>(table: HashTable<K, V>, op: Op<K, V>) returns (reply: seq<Option<V>>)
    requires table.Sound() && table.Valid()
    requires op.PushOp? && op.key in table.Contents() ==> table.NoHoles()
    modifies table
    ensures table.Sound() && table.Valid() && table.Contents() == Apply(old(table.Contents()), op)
    ensures old(table.NoHoles()) && !op.DeleteOp? ==> table.NoHoles()
    ensures reply == Reply(old(table.Contents()), op)
  {
    reply := [];
    match op
    case PushOp(k, v) =>
      assert k in table.pos ==> NoHoleBefore(table.hash, table.keys, table.pos, k);
      ghost var at := table.Push(k, v);
    case SearchOp(k) =>
      var r := table.Search(k);
      reply := [r];
    case DeleteOp(k) =>
      table.Delete(k);
  }

  // Over every allowed run, and for every hash function, the table answers as the finite map does.
  method Replay<K(==), V>(hash: K -> Hash, ops: seq<Op<K, V>>) returns (answers: seq<Option<V>>)
    requires Allowed(ops)
    ensures answers == Answers(ops)
  {
    var table := new HashTable<K, V>(hash, 0);
    answers := [];
    for i := 0 to |ops|
      invariant fresh(table) && table.Sound() && table.Valid() && table.Contents() == After(ops[..i])
      invariant NoDelete(ops[..i]) ==> table.NoHoles()
      invariant answers == Answers(ops[..i])
    {
      NextOp(ops, i);
      var reply := Perform(table, ops[i]);
      answers := answers + reply;
    }
    assert ops[..|ops|] == ops;
  }

  // ----- what goes wrong with the other runs -----

  // A push, a delete and a search of one key: the search finds the key exactly if it was stored behind a free slot, and
  // then it finds the value from before the push.
  method PushDeleteSearch<K(==), V>(table: HashTable<K, V>, key: K, value: V) returns (r: Option<V>)
    requires table.Sound() && table.Valid()
    modifies table
    ensures r == if old(key in table.pos && !NoHoleBefore(table.hash, table.keys, table.pos, key))
                 then Some(old(table.Contents())[key]) else None
  {
    ghost var keys, data, pos := table.keys, table.data, table.pos;
    ghost var at := table.Push(key, value);
    ghost var behind := key in pos && !NoHoleBefore(table.hash, keys, pos, key);
    if behind {
      assert SlotOk(table.hash, keys, data, pos, pos[key]);
      assert at.Some?;
      TwoCopies(table.hash, keys, data, pos, key, value, at.value);
      assert table.keys == keys[at.value := Some(key)] && table.data == data[at.value := Some(value)];
      assert Found(table.hash, table.keys, key) == at.value;
    }
    table.Delete(key);
    if behind {
      assert table.keys == keys[at.value := Some(key)][at.value := None];
      assert Lookup(table.hash, table.keys, table.data, key) == data[pos[key]];
    }
    r := table.Search(key);
  }

  lemma TwoCopies<K, V>(hash: K -> Hash, keys: seq<Option<K>>, data: seq<Option<V>>, pos: map<K, nat>, key: K, v: V,
                        i: nat)
    requires Stored(hash, keys, data, pos) && key in pos && !NoHoleBefore(hash, keys, pos, key)
    requires Probed(hash, keys, key, i)
    ensures i < pos[key] && keys[i] == None && Found(hash, keys[i := Some(key)], key) == i
    ensures Found(hash, keys[i := Some(key)][i := None], key) == pos[key] && data[pos[key]].Some?
  {
    ProbeFindsKey(hash, keys, data, pos, key, i);
    assert SlotOk(hash, keys, data, pos, pos[key]);
    FirstIs(keys[i := Some(key)], key, Home(hash(key), |keys|), i);
    assert keys[i := Some(key)][i := None] == keys;
    FoundStored(hash, keys, data, pos, key);
  }

  // Two keys with one home slot, pushed into a new table: they fill the first two slots.
  method PushTwo<K(==), V>(a: K, b: K, v: V, w: V) returns (table: HashTable<K, V>)
    requires a != b
    ensures fresh(table) && table.Sound() && table.Valid() && table.hash == (_ => 0)
    ensures table.keys == Empty(16)[0 := Some(a)][1 := Some(b)]
    ensures table.Contents() == map[a := v, b := w]
  {
    table := new HashTable<K, V>(_ => 0, 0);
    ghost var at := table.Push(a, v);
    ghost var none: seq<Option<K>> := Empty(16);
    ProbedBy(table.hash, none, a, at.value, 0);
    assert table.keys == none[0 := Some(a)];
    at := table.Push(b, w);
    assert none[0 := Some(a)][1] == None;
    ProbedBy(table.hash, none[0 := Some(a)], b, at.value, 1);
  }

  // The probe goes no further than a free slot.
  lemma ProbedBy<K>(hash: K -> Hash, keys: seq<Option<K>>, k: K, i: nat, j: nat)
    requires Probed(hash, keys, k, i) && j < |keys| && Home(hash(k), |keys|) <= j && keys[j] == None
    ensures i <= j
  {}

  lemma StaleAnswers<K, V>(a: K, b: K, v: V, w: V, x: V)
    requires a != b
    ensures Answers([PushOp(a, v), PushOp(b, w), DeleteOp(a), PushOp(b, x), DeleteOp(b), SearchOp(b)]) == [None]
  {
    var ops := [PushOp(a, v), PushOp(b, w), DeleteOp(a), PushOp(b, x), DeleteOp(b), SearchOp(b)];
    assert ops[..0] == [] && ops[..6] == ops;
    NextOp(ops, 0);
    NextOp(ops, 1);
    NextOp(ops, 2);
    NextOp(ops, 3);
    NextOp(ops, 4);
    NextOp(ops, 5);
  }

  // The shortest run that goes wrong: push a, push b, delete a, push b again, delete b, search b. The table answers
  // with the first value of b, where the finite map has none.
  method StaleAnswer<K(==), V>(a: K, b: K, v: V, w: V, x: V) returns (r: Option<V>)
    requires a != b
    ensures r == Some(w)
    ensures Answers([PushOp(a, v), PushOp(b, w), DeleteOp(a), PushOp(b, x), DeleteOp(b), SearchOp(b)]) == [None]
  {
    StaleAnswers(a, b, v, w, x);
    var table := BehindFreed(a, b, v, w);
    r := PushDeleteSearch(table, b, x);
  }

  // The first half of that run leaves b behind a free slot.
  method BehindFreed<K(==), V>(a: K, b: K, v: V, w: V) returns (table: HashTable<K, V>)
    requires a != b
    ensures fresh(table) && table.Sound() && table.Valid() && b in table.pos && table.Contents()[b] == w
    ensures !NoHoleBefore(table.hash, table.keys, table.pos, b)
  {
    table := PushTwo(a, b, v, w);
    FirstIs(table.keys, a, 0, 0);
    assert table.keys[0] == Some(a) && Found(table.hash, table.keys, a) == 0;
    table.Delete(a);
    assert table.keys[0] == None && b in table.pos;
    assert table.keys[table.pos[b]] == Some(b) && table.pos[b] == 1;
  }

  // ----- every run -----

  // The last slot before i that holds the key, -1 if there is none.
  ghost function LastAt<K>(keys: seq<Option<K>>, k: K, i: nat): (r: int)
    requires i <= |keys|
    ensures -1 <= r < i && (r >= 0 ==> keys[r] == Some(k)) && forall j | r < j < i :: keys[j] != Some(k)
  {
    if i == 0 then -1 else if keys[i - 1] == Some(k) then i - 1 else LastAt(keys, k, i - 1)
  }

  lemma {:induction false} FoldAt<K, V>(hash: K -> Hash, keys: seq<Option<K>>, data: seq<Option<V>>, i: nat, k: K)
    requires Loose(hash, keys, data) && i <= |keys|
    ensures k in Fold(keys, data, i) <==> LastAt(keys, k, i) >= 0
    ensures k in Fold(keys, data, i) ==> data[LastAt(keys, k, i)] == Some(Fold(keys, data, i)[k])
  {
    if i > 0 {
      FoldAt(hash, keys, data, i - 1, k);
      assert Seated(hash, keys, data, i - 1);
    }
  }

  // The first and the last copy of the key have the same value.
  ghost predicate EndsAlike<K, V>(hash: K -> Hash, keys: seq<Option<K>>, data: seq<Option<V>>, k: K)
    requires |keys| == |data|
  {
    LastAt(keys, k, |keys|) >= 0 ==> data[LastAt(keys, k, |keys|)] == Lookup(hash, keys, data, k)
  }

  lemma LookupSeated<K, V>(hash: K -> Hash, keys: seq<Option<K>>, data: seq<Option<V>>, k: K)
    requires Loose(hash, keys, data)
    ensures Lookup(hash, keys, data, k).Some? <==> LastAt(keys, k, |keys|) >= 0
  {
    var l := LastAt(keys, k, |keys|);
    if l >= 0 { assert Seated(hash, keys, data, l); }
    if Found(hash, keys, k) < |keys| { assert Seated(hash, keys, data, Found(hash, keys, k)); }
  }

  lemma FoldAgrees<K(!new), V>(hash: K -> Hash, keys: seq<Option<K>>, data: seq<Option<V>>, m: map<K, V>, k: K)
    requires Loose(hash, keys, data) && Agrees(hash, keys, data, m)
    ensures var f := Fold(keys, data, |keys|);
      && (k in f <==> k in m)
      && (k in m ==> (f[k] == m[k] <==> EndsAlike(hash, keys, data, k)))
      && (k !in m ==> EndsAlike(hash, keys, data, k))
  {
    FoldAt(hash, keys, data, |keys|, k);
    LookupSeated(hash, keys, data, k);
    assert Lookup(hash, keys, data, k) == if k in m then Some(m[k]) else None;
  }

  // Growth keeps the agreement exactly if the copies that win are as good as those that answered before.
  lemma GrowAgrees<K(!new), V>(hash: K -> Hash, keys: seq<Option<K>>, data: seq<Option<V>>, m: map<K, V>, key: K, v: V)
    requires Loose(hash, keys, data) && Agrees(hash, keys, data, m)
    ensures Fold(keys, data, |keys|)[key := v] == m[key := v] <==>
      forall k | k != key :: EndsAlike(hash, keys, data, k)
  {
    var f := Fold(keys, data, |keys|);
    if f[key := v] == m[key := v] {
      forall k | k != key
        ensures EndsAlike(hash, keys, data, k)
      {
        FoldAgrees(hash, keys, data, m, k);
        if k in m { assert f[key := v][k] == m[key := v][k]; }
      }
    }
    if forall k | k != key :: EndsAlike(hash, keys, data, k) {
      forall k
        ensures k in f <==> k in m
        ensures k in m && k != key ==> f[k] == m[k]
      {
        FoldAgrees(hash, keys, data, m, k);
      }
      assert f[key := v] == m[key := v];
    }
  }

  // A table without duplicates agrees with its map and with no other.
  lemma StoredAgrees<K(!new), V>(hash: K -> Hash, keys: seq<Option<K>>, data: seq<Option<V>>, pos: map<K, nat>,
                                 m: map<K, V>)
    requires Stored(hash, keys, data, pos) && forall k | k in pos :: pos[k] < |data| && data[pos[k]].Some?
    ensures Agrees(hash, keys, data, m) <==> m == Meaning(data, pos)
  {
    forall k
      ensures Lookup(hash, keys, data, k) == if k in Meaning(data, pos) then Some(Meaning(data, pos)[k]) else None
    {
      LookupStored(hash, keys, data, pos, k);
    }
    if Agrees(hash, keys, data, m) {
      forall k
        ensures k in m <==> k in pos
        ensures k in m ==> m[k] == Meaning(data, pos)[k]
      {
        assert Lookup(hash, keys, data, k) == if k in m then Some(m[k]) else None;
      }
    }
  }

  datatype Slots<K, V> = Slots(keys: seq<Option<K>>, data: seq<Option<V>>)

  // No slot from home on is free or holds the key: a push has to grow the table.
  ghost predicate Full<K>(hash: K -> Hash, keys: seq<Option<K>>, key: K) {
    |keys| > 0 && forall i | Home(hash(key), |keys|) <= i < |keys| :: keys[i].Some? && keys[i] != Some(key)
  }

  // The operations after which a table still answers as the finite map: all searches, pushes without growth, pushes
  // whose growth meets no key with different first and last copies, and deletes of a key in one slot at most.
  ghost predicate Harmless<K(!new), V>(hash: K -> Hash, t: Slots<K, V>, op: Op<K, V>)
    requires |t.keys| == |t.data|
  {
    match op
    case PushOp(key, v) => Full(hash, t.keys, key) ==> forall k | k != key :: EndsAlike(hash, t.keys, t.data, k)
    case SearchOp(key) => true
    case DeleteOp(key) => Single(t.keys, key)
  }

  lemma NotFound<K, V>(hash: K -> Hash, keys: seq<Option<K>>, data: seq<Option<V>>, key: K)
    requires Loose(hash, keys, data) && Found(hash, keys, key) == |keys|
    ensures Single(keys, key) && Lookup(hash, keys, data, key) == None
  {
    forall i | 0 <= i < |keys|
      ensures keys[i] != Some(key)
    {
      assert Seated(hash, keys, data, i);
    }
  }

  ghost predicate Right<K(!new), V>(hash: K -> Hash, t: Slots<K, V>, m: map<K, V>) {
    |t.keys| == |t.data| && Agrees(hash, t.keys, t.data, m)
  }

  ghost predicate Placed<K, V>(hash: K -> Hash, t: Slots<K, V>, key: K, v: V, t': Slots<K, V>, i: nat) {
    && Probed(hash, Used(t.keys), key, i) && |Used(t.keys)| == |Used(t.data)|
    && t' == Slots(Used(t.keys)[i := Some(key)], Used(t.data)[i := Some(v)])
  }

  // Each key is in one slot, with no free slot before it, and the slots are the finite map.
  ghost predicate Settled<K(!new), V>(hash: K -> Hash, t: Slots<K, V>, m: map<K, V>) {
    exists pos :: SettledAt(hash, t, m, pos)
  }

  ghost predicate SettledAt<K, V>(hash: K -> Hash, t: Slots<K, V>, m: map<K, V>, pos: map<K, nat>) {
    && Stored(hash, t.keys, t.data, pos) && Dense(hash, t.keys, pos)
    && (forall k | k in pos :: t.data[pos[k]].Some?) && Meaning(t.data, pos) == m
  }

  // What an operation does to the slots: a delete frees the first copy, a push fills the first slot that is free or
  // holds the key, and a push that grows the table leaves each key once, with its last copy.
  ghost predicate StepOf<K(!new), V>(hash: K -> Hash, t: Slots<K, V>, op: Op<K, V>, t': Slots<K, V>) {
    |t.keys| == |t.data| &&
    match op
    case PushOp(key, v) =>
      if Full(hash, t.keys, key) then
        var m := Fold(t.keys, t.data, |t.keys|)[key := v];
        Settled(hash, t', m) && Right(hash, t', m)
      else exists i :: Placed(hash, t, key, v, t', i)
    case SearchOp(key) => t' == t
    case DeleteOp(key) =>
      var f := Found(hash, t.keys, key);
      t' == if f < |t.keys| then Slots(t.keys[f := None], t.data[f := None]) else t
  }

  // hash_table_push and the finite map.
  method PushAny<K(==, !new), V>(table: HashTable<K, V>, key: K, v: V, ghost m: map<K, V>)
    requires table.Sound()
    modifies table
    ensures table.Sound()
    ensures StepOf(table.hash, old(Slots(table.keys, table.data)), PushOp(key, v), Slots(table.keys, table.data))
    ensures old(Agrees(table.hash, table.keys, table.data, m)) ==>
      (Agrees(table.hash, table.keys, table.data, m[key := v]) <==>
       old(Harmless(table.hash, Slots(table.keys, table.data), PushOp(key, v))))
  {
    ghost var hash, keys, data := table.hash, table.keys, table.data;
    ghost var at := table.Push(key, v);
    if at.Some? {
      assert !Full(hash, keys, key);
      assert Placed(hash, Slots(keys, data), key, v, Slots(table.keys, table.data), at.value);
    } else {
      StoredData(hash, table.keys, table.data, table.pos);
      StoredAgrees(hash, table.keys, table.data, table.pos, Fold(keys, data, |keys|)[key := v]);
      assert SettledAt(hash, Slots(table.keys, table.data), Fold(keys, data, |keys|)[key := v], table.pos);
    }
    if !Agrees(hash, keys, data, m) {
    } else if at.Some? {
      UsedAgrees(hash, keys, data, m);
      PutAgrees(hash, Used(keys), Used(data), m, key, v, at.value);
    } else {
      StoredAgrees(hash, table.keys, table.data, table.pos, m[key := v]);
      GrowAgrees(hash, keys, data, m, key, v);
      assert Full(hash, keys, key);
    }
  }

  lemma UsedAgrees<K(!new), V>(hash: K -> Hash, keys: seq<Option<K>>, data: seq<Option<V>>, m: map<K, V>)
    requires Loose(hash, keys, data) && Agrees(hash, keys, data, m)
    ensures Loose(hash, Used(keys), Used(data)) && Agrees(hash, Used(keys), Used(data), m)
  {
    assert IsPow2(2) && IsPow2(4) && IsPow2(8) && IsPow2(16);
    if |keys| == 0 {
      forall k
        ensures Lookup(hash, Used(keys), Used(data), k) == Lookup(hash, keys, data, k)
      {
      }
    }
  }

  // hash_table_delete and the finite map.
  method DeleteAny<K(==, !new), V>(table: HashTable<K, V>, key: K, ghost m: map<K, V>)
    requires table.Sound()
    modifies table
    ensures table.Sound()
    ensures StepOf(table.hash, old(Slots(table.keys, table.data)), DeleteOp(key), Slots(table.keys, table.data))
    ensures old(Agrees(table.hash, table.keys, table.data, m)) ==>
      (Agrees(table.hash, table.keys, table.data, m - {key}) <==>
       old(Harmless(table.hash, Slots(table.keys, table.data), DeleteOp(key))))
  {
    ghost var hash, keys, data := table.hash, table.keys, table.data;
    table.Delete(key);
    if !Agrees(hash, keys, data, m) {
    } else if Found(hash, keys, key) < |keys| {
      DeleteAgrees(hash, keys, data, m, key);
    } else {
      NotFound(hash, keys, data, key);
      assert key !in m && m - {key} == m;
    }
  }

  // The table's own answer.
  ghost function Looked<K, V>(hash: K -> Hash, t: Slots<K, V>, op: Op<K, V>): seq<Option<V>>
    requires |t.keys| == |t.data|
  {
    if op.SearchOp? then [Lookup(hash, t.keys, t.data, op.key)] else []
  }

  // One operation on a table in any state.
  method PerformAny<K(==, !new), V>(table: HashTable<K, V>, op: Op<K, V>, ghost m: map<K, V>)
    returns (reply: seq<Option<V>>)
    requires table.Sound()
    modifies table
    ensures table.Sound()
    ensures StepOf(table.hash, old(Slots(table.keys, table.data)), op, Slots(table.keys, table.data))
    ensures reply == Looked(table.hash, old(Slots(table.keys, table.data)), op)
    ensures old(Right(table.hash, Slots(table.keys, table.data), m)) ==>
      && reply == Reply(m, op)
      && (Right(table.hash, Slots(table.keys, table.data), Apply(m, op)) <==>
          old(Harmless(table.hash, Slots(table.keys, table.data), op)))
  {
    reply := [];
    match op
    case PushOp(k, v) =>
      PushAny(table, k, v, m);
    case SearchOp(k) =>
      var r := table.Search(k);
      assert Right(table.hash, Slots(table.keys, table.data), m) ==> r == if k in m then Some(m[k]) else None;
      reply := [r];
    case DeleteOp(k) =>
      DeleteAny(table, k, m);
  }

  ghost predicate AllHarmless<K(!new), V>(hash: K -> Hash, trace: seq<Slots<K, V>>, ops: seq<Op<K, V>>, n: nat) {
    && n <= |ops| && n < |trace|
    && forall j | 0 <= j < n :: |trace[j].keys| == |trace[j].data| && Harmless(hash, trace[j], ops[j])
  }

  ghost predicate AllRight<K(!new), V>(hash: K -> Hash, trace: seq<Slots<K, V>>, ops: seq<Op<K, V>>, n: nat) {
    n <= |ops| && n < |trace| && forall j | 0 <= j <= n :: Right(hash, trace[j], After(ops[..j]))
  }

  ghost predicate AllSteps<K(!new), V>(hash: K -> Hash, trace: seq<Slots<K, V>>, ops: seq<Op<K, V>>, n: nat) {
    n <= |ops| && n < |trace| && forall j | 0 <= j < n :: StepOf(hash, trace[j], ops[j], trace[j + 1])
  }

  lemma StepsNext<K(!new), V>(hash: K -> Hash, trace: seq<Slots<K, V>>, ops: seq<Op<K, V>>, i: nat, t: Slots<K, V>)
    requires |trace| == i + 1 && i < |ops| && AllSteps(hash, trace, ops, i) && StepOf(hash, trace[i], ops[i], t)
    ensures AllSteps(hash, trace + [t], ops, i + 1)
  {
    var trace' := trace + [t];
    forall j | 0 <= j < i + 1
      ensures StepOf(hash, trace'[j], ops[j], trace'[j + 1])
    {
      if j < i { assert StepOf(hash, trace[j], ops[j], trace[j + 1]); }
    }
  }

  lemma TraceNext<K(!new), V>(hash: K -> Hash, trace: seq<Slots<K, V>>, ops: seq<Op<K, V>>, i: nat, t: Slots<K, V>)
    requires |trace| == i + 1 && i < |ops| && |trace[i].keys| == |trace[i].data|
    requires AllHarmless(hash, trace, ops, i) <==> AllRight(hash, trace, ops, i)
    requires Right(hash, trace[i], After(ops[..i])) ==>
      (Right(hash, t, After(ops[..i + 1])) <==> Harmless(hash, trace[i], ops[i]))
    ensures AllHarmless(hash, trace + [t], ops, i + 1) <==> AllRight(hash, trace + [t], ops, i + 1)
    ensures AllHarmless(hash, trace + [t], ops, i + 1) ==> AllHarmless(hash, trace, ops, i)
  {
    var trace' := trace + [t];
    assert forall j | 0 <= j <= i :: trace'[j] == trace[j];
    if AllHarmless(hash, trace', ops, i + 1) {
      forall j | 0 <= j < i
        ensures Harmless(hash, trace[j], ops[j]) && |trace[j].keys| == |trace[j].data|
      {
        assert Harmless(hash, trace'[j], ops[j]);
      }
      assert Harmless(hash, trace'[i], ops[i]) && Right(hash, trace[i], After(ops[..i]));
      forall j | 0 <= j <= i + 1
        ensures Right(hash, trace'[j], After(ops[..j]))
      {
        if j <= i { assert Right(hash, trace[j], After(ops[..j])); }
      }
    }
    if AllRight(hash, trace', ops, i + 1) {
      forall j | 0 <= j <= i
        ensures Right(hash, trace[j], After(ops[..j]))
      {
        assert Right(hash, trace'[j], After(ops[..j]));
      }
      assert Right(hash, trace'[i + 1], After(ops[..i + 1]));
      forall j | 0 <= j < i + 1
        ensures |trace'[j].keys| == |trace'[j].data| && Harmless(hash, trace'[j], ops[j])
      {
        if j < i { assert Harmless(hash, trace[j], ops[j]); }
      }
    }
  }

  // Every run, and every hash function: `trace` is the table before each operation and at the end. At all times every
  // search would be answered as by the finite map, exactly if all operations are harmless.
  method ReplayAny<K(==, !new), V>(hash: K -> Hash, ops: seq<Op<K, V>>)
    returns (answers: seq<Option<V>>, ghost trace: seq<Slots<K, V>>)
    ensures |trace| == |ops| + 1 && trace[0] == Slots([], [])
    ensures AllSteps(hash, trace, ops, |ops|)
    ensures AllRight(hash, trace, ops, |ops|) <==> AllHarmless(hash, trace, ops, |ops|)
    ensures AllHarmless(hash, trace, ops, |ops|) ==> answers == Answers(ops)
  {
    var table := new HashTable<K, V>(hash, 0);
    answers, trace := [], [Slots(table.keys, table.data)];
    EmptyRight(hash, trace[0]);
    for i := 0 to |ops|
      invariant fresh(table) && table.Sound() && table.hash == hash && |trace| == i + 1
      invariant trace[0] == Slots([], []) && trace[i] == Slots(table.keys, table.data)
      invariant AllSteps(hash, trace, ops, i)
      invariant AllHarmless(hash, trace, ops, i) <==> AllRight(hash, trace, ops, i)
      invariant AllHarmless(hash, trace, ops, i) ==> answers == Answers(ops[..i])
    {
      NextOp(ops, i);
      var reply := PerformAny(table, ops[i], After(ops[..i]));
      answers := answers + reply;
      ghost var t := Slots(table.keys, table.data);
      TraceNext(hash, trace, ops, i, t);
      StepsNext(hash, trace, ops, i, t);
      trace := trace + [t];
    }
    assert ops[..|ops|] == ops;
  }

  lemma EmptyRight<K(!new), V>(hash: K -> Hash, t: Slots<K, V>)
    requires t.keys == [] && t.data == []
    ensures Right(hash, t, map[])
  {}
}
