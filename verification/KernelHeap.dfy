// alloc and free of kernel/mm/slab.c over the size classes that main.c creates.
module KernelHeap {
  import opened Common
  import opened Bits
  import opened Slabs

  // The caches created by main.c, smallest first.
  const SIZES: seq<nat> := [32, 64, 128, 256, 512, 1024, 2048, 4096, 8192, 16384]

  predicate IsClass(r: bv64) {
    r == 32 || r == 64 || r == 128 || r == 256 || r == 512 ||
    r == 1024 || r == 2048 || r == 4096 || r == 8192 || r == 16384
  }

  function ClassIndex(r: bv64): (k: nat)
    requires IsClass(r)
    ensures k < |SIZES|
  {
    if r == 32 then 0 else if r == 64 then 1 else if r == 128 then 2 else if r == 256 then 3
    else if r == 512 then 4 else if r == 1024 then 5 else if r == 2048 then 6 else if r == 4096 then 7
    else if r == 8192 then 8 else 9
  }

  // The rounding at the start of alloc.
  function RoundSize(size: bv64): bv64 {
    var r := RoundUp(size + 1);
    if r <= 16 then 32 else r
  }

  // Requests of 1 to 16383 bytes get the smallest class that is strictly larger.
  lemma SmallRequests(size: bv64)
    requires 1 <= size <= 16383
    ensures IsClass(RoundSize(size)) && size < RoundSize(size)
    ensures RoundSize(size) > 32 ==> (RoundSize(size) >> 1) <= size
  {}

  lemma LargeSmear(size: bv64)
    requires size >= 16384
    ensures IsClass(RoundSize(size)) <==> Smear(size) == 0xffff_ffff_ffff_ffff
    ensures Smear(size) == 0xffff_ffff_ffff_ffff ==> RoundSize(size) == 32
  {}

  // Requests whose rounding wraps: the top bit is set and no 32 bits in a row are zero.
  predicate Wraps(size: bv64) { size >= 0x8000_0000_0000_0000 && Windows(size) }

  // Larger requests get no cache, exactly except those that wrap: they get 32 bytes.
  lemma LargeRequests(size: bv64)
    requires size >= 16384
    ensures IsClass(RoundSize(size)) <==> Wraps(size)
    ensures Wraps(size) ==> RoundSize(size) == 32
  {
    LargeSmear(size);
    SmearAll(size);
  }

  // The largest request of all is one of them.
  lemma HugeRequestWraps()
    ensures RoundSize(0xffff_ffff_ffff_ffff) == 32
  {}

  // The requests that alloc serves.
  predicate Served(size: bv64) {
    1 <= size <= 16383 || Wraps(size)
  }

  lemma ServedHasClass(size: bv64)
    ensures size != 0 ==> (IsClass(RoundSize(size)) <==> Served(size))
  {
    if 1 <= size <= 16383 {
      SmallRequests(size);
    } else if size >= 16384 {
      LargeRequests(size);
    }
  }

  // The size of the request's class, as a machine word and as a number.
  lemma ClassSize(r: bv64)
    requires IsClass(r)
    ensures ClassIndex(r) < |SIZES| && SIZES[ClassIndex(r)] == r as nat
  {}

  ghost predicate Separate(caches: seq<Cache>)
    reads caches
  {
    forall a, b | 0 <= a < b < |caches| :: Unshared(caches, a, b)
  }

  ghost predicate Unshared(caches: seq<Cache>, a: nat, b: nat)
    requires a < b < |caches|
    reads caches
  {
    caches[a] != caches[b] && caches[a].slabs !! caches[b].slabs
  }

  ghost predicate Sound(caches: seq<Cache>, k: nat, all: set<Slab>)
    requires k < |caches|
    reads caches, all
  {
    caches[k].slabs <= all && caches[k].Valid()
  }

  // The caches are valid and share no slab, and no two slabs share a page; `all` holds every slab.
  ghost predicate Healthy(caches: seq<Cache>, all: set<Slab>)
    reads caches, all
  {
    Separate(caches) && AllApart(all) && forall k | 0 <= k < |caches| :: Sound(caches, k, all)
  }

  // At most one slab more, on pages that were free.
  lemma ApartGrown(all: set<Slab>, slab: Slab, page: nat, n: nat)
    requires AllApart(all) && PagesFree(all, page, n) && (slab !in all ==> slab.base == page && slab.pages == n)
    ensures AllApart(all + {slab})
  {}

  // The object of one cache: the other caches stay as they are.
  method AllocAmong(caches: seq<Cache>, k: nat, page: nat, ram: Ram, ghost all: set<Slab>)
    returns (obj: nat, ghost slab: Slab, ghost i: nat)
    requires k < |caches| && Healthy(caches, all)
    requires page % PAGE == 0 && caches[k].objectSize > 0
    requires PagesFree(all, page, PagesPerSlab(caches[k].objectSize))
    modifies caches[k], caches[k].slabs, ram
    ensures forall j | 0 <= j < |caches| :: Sound(caches, j, all + {slab})
    ensures forall j | 0 <= j < |caches| && j != k :: caches[j].slabs == old(caches[j].slabs)
    ensures caches[k].slabs == old(caches[k].slabs) + {slab} && (slab in all ==> slab in old(caches[k].slabs))
    ensures i < slab.total && obj == ObjectAt(slab.buffer, caches[k].objectSize, i)
    ensures slab in all ==> i < |old(slab.bits)| && !old(slab.bits)[i] && slab.bits == old(slab.bits)[i := true]
    ensures slab !in all ==> fresh(slab) && i < |slab.bits| && slab.bits[i]
    ensures slab !in all ==> forall j | 0 <= j < |slab.bits| && j != i :: !slab.bits[j]
    ensures slab !in all ==> slab.base == page && slab.pages == PagesPerSlab(caches[k].objectSize)
    ensures forall s | s in all && s != slab :: s.bits == old(s.bits)
    ensures Zeroed(ram.bytes, old(ram.bytes), obj, caches[k].objectSize)
  {
    assert Sound(caches, k, all);
    obj, slab, i := caches[k].AllocObj(page, ram);
    forall j | 0 <= j < |caches| && j != k
      ensures Sound(caches, j, all + {slab}) && caches[j].slabs == old(caches[j].slabs)
    {
      assert old(Sound(caches, j, all)) && old(if j < k then Unshared(caches, j, k) else Unshared(caches, k, j));
      assert caches[j].Valid() == old(caches[j].Valid());
    }
  }

  // alloc once the cache is found. `all` is every slab of the heap and `page` what pmm_alloc would return for a
  // new slab. The object is zeroed, its bit was clear, and no other object's bit changes in any cache.
  method AllocClass(caches: seq<Cache>, k: nat, page: nat, ram: Ram, ghost all: set<Slab>)
    returns (obj: nat, ghost slab: Slab, ghost i: nat)
    requires k < |caches| && Healthy(caches, all)
    requires page % PAGE == 0 && caches[k].objectSize > 0
    requires PagesFree(all, page, PagesPerSlab(caches[k].objectSize))
    modifies caches[k], caches[k].slabs, ram
    ensures Healthy(caches, all + {slab})
    ensures slab in caches[k].slabs && i < slab.total && obj == ObjectAt(slab.buffer, caches[k].objectSize, i)
    ensures slab in all ==> i < |old(slab.bits)| && !old(slab.bits)[i] && slab.bits == old(slab.bits)[i := true]
    ensures slab !in all ==> fresh(slab) && i < |slab.bits| && slab.bits[i]
    ensures slab !in all ==> forall j | 0 <= j < |slab.bits| && j != i :: !slab.bits[j]
    ensures slab !in all ==> slab.base == page && slab.pages == PagesPerSlab(caches[k].objectSize)
    ensures forall j | 0 <= j < |caches| :: old(caches[j].slabs) <= caches[j].slabs
    ensures forall s | s in all && s != slab :: s.bits == old(s.bits)
    ensures Zeroed(ram.bytes, old(ram.bytes), obj, caches[k].objectSize)
  {
    obj, slab, i := AllocAmong(caches, k, page, ram, all);
    ApartGrown(all, slab, page, PagesPerSlab(caches[k].objectSize));
    forall a, b | 0 <= a < b < |caches|
      ensures Unshared(caches, a, b)
    {
      assert old(Unshared(caches, a, b)) && old(Sound(caches, a, all)) && old(Sound(caches, b, all));
    }
  }

  // The address is a live object of the cache, or no object of it.
  ghost predicate Freeable(c: Cache, obj: nat)
    reads c, c.slabs
  {
    && c.Valid() && (forall s | s in c.slabs :: LiveOrElsewhere(s, obj))
    && (forall s | s in c.emptyList :: !InRange(s, obj))
  }

  ghost predicate CanFree(caches: seq<Cache>, k: nat, obj: nat, all: set<Slab>)
    requires k < |caches|
    reads caches, all
  {
    caches[k].slabs <= all && Freeable(caches[k], obj)
  }

  // One round of the loop of free.
  method TryCache(caches: seq<Cache>, i: nat, obj: nat, ghost all: set<Slab>) returns (found: bool, ghost slab: Slab?)
    requires i < |caches| && Separate(caches) && forall k | 0 <= k < |caches| :: CanFree(caches, k, obj, all)
    modifies caches[i].slabs`bits, caches[i].slabs`available
    ensures forall k | 0 <= k < |caches| :: Sound(caches, k, all)
    ensures !found ==> forall k | 0 <= k < |caches| :: CanFree(caches, k, obj, all)
    ensures !found ==> forall s | s in caches[i].slabs :: !InRange(s, obj) && s.bits == old(s.bits)
    ensures found ==> slab != null && slab in caches[i].slabs && InRange(slab, obj)
    ensures found ==> IndexIn(slab, obj) < |old(slab.bits)| && slab.bits == old(slab.bits)[IndexIn(slab, obj) := false]
    ensures found ==> forall s | s in caches[i].slabs && s != slab :: s.bits == old(s.bits)
  {
    assert CanFree(caches, i, obj, all);
    found, slab := caches[i].FreeObj(obj);
    assert Sound(caches, i, all);
    forall k | 0 <= k < |caches| && k != i
      ensures Sound(caches, k, all) && CanFree(caches, k, obj, all)
    {
      assert old(CanFree(caches, k, obj, all));
      assert old(if k < i then Unshared(caches, k, i) else Unshared(caches, i, k));
      assert Freeable(caches[k], obj) == old(Freeable(caches[k], obj));
    }
  }

  // free: asks the caches in turn. The live object's bit is cleared, in its own slab and nowhere else; an
  // address that is in no slab is ignored. `all` is every slab of the heap.
  method Free(caches: seq<Cache>, obj: nat, ghost all: set<Slab>)
    returns (found: bool, ghost slab: Slab?, ghost at: nat)
    requires Separate(caches) && forall k | 0 <= k < |caches| :: CanFree(caches, k, obj, all)
    modifies all`bits, all`available
    ensures forall k | 0 <= k < |caches| :: Sound(caches, k, all)
    ensures !found ==> slab == null && forall k | 0 <= k < |caches| :: Misses(caches, k, obj)
    ensures found ==> slab != null && slab in all && InRange(slab, obj)
    ensures found ==> at < |caches| && slab in caches[at].slabs
    ensures found ==> IndexIn(slab, obj) < |old(slab.bits)| && slab.bits == old(slab.bits)[IndexIn(slab, obj) := false]
    ensures forall s | s in all && s != slab :: s.bits == old(s.bits)
  {
    var i := 0;
    while i < |caches|
      invariant i <= |caches|
      invariant forall k | 0 <= k < |caches| :: CanFree(caches, k, obj, all)
      invariant forall s | s in all :: s.bits == old(s.bits)
      invariant forall k | 0 <= k < i :: Misses(caches, k, obj)
    {
      assert CanFree(caches, i, obj, all);
      found, slab := TryCache(caches, i, obj, all);
      if found {
        at := i;
        return;
      }
      i := i + 1;
    }
    found, slab, at := false, null, 0;
    forall k | 0 <= k < |caches|
      ensures Sound(caches, k, all)
    {
      assert CanFree(caches, k, obj, all);
    }
  }

  // The address is in no slab of the cache.
  ghost predicate Misses(caches: seq<Cache>, k: nat, obj: nat)
    requires k < |caches|
    reads caches
  {
    forall s | s in caches[k].slabs :: !InRange(s, obj)
  }

  // A live object can be freed: every cache but its own finds it in no slab.
  lemma LiveFreeable(caches: seq<Cache>, all: set<Slab>, k: nat, slab: Slab, i: nat, obj: nat)
    requires k < |caches| && Healthy(caches, all)
    requires slab in caches[k].slabs && i < slab.total && i < |slab.bits| && slab.bits[i]
    requires obj == ObjectAt(slab.buffer, slab.objectSize, i)
    ensures InRange(slab, obj) && IndexIn(slab, obj) == i
    ensures forall j | 0 <= j < |caches| :: CanFree(caches, j, obj, all)
    ensures forall j | 0 <= j < |caches| && j != k :: Misses(caches, j, obj)
    ensures forall s | s in caches[k].slabs && s != slab :: !InRange(s, obj)
  {
    assert Sound(caches, k, all);
    caches[k].OwnerOf(obj, slab, i);
    forall j | 0 <= j < |caches| && j != k
      ensures Misses(caches, j, obj) && CanFree(caches, j, obj, all)
    {
      assert Sound(caches, j, all) && if j < k then Unshared(caches, j, k) else Unshared(caches, k, j);
      forall s | s in caches[j].slabs
        ensures !InRange(s, obj)
      {
        assert PagesApart(slab, s);
        OutsideOthers(slab, i, obj, s);
      }
    }
    assert CanFree(caches, k, obj, all);
  }

  lemma OutsideOthers(slab: Slab, i: nat, obj: nat, s: Slab)
    requires slab.Valid() && s.Valid() && i < slab.total && obj == ObjectAt(slab.buffer, slab.objectSize, i)
    requires PagesApart(slab, s)
    ensures !InRange(s, obj)
  {
    ByteInPages(slab, i, obj);
  }

  // ----- the heap -----

  // A bit of a slab, standing for the object at its place.
  datatype Object = Object(slab: Slab, index: nat)

  ghost function Address(o: Object): nat { ObjectAt(o.slab.buffer, o.slab.objectSize, o.index) }

  // The list that main.c leaves: the caches of all classes, the last one created first. `words` are their object
  // sizes as machine words.
  ghost predicate Listed(caches: seq<Cache>, words: seq<bv64>) {
    && |caches| == |words| == |SIZES|
    && (forall k | 0 <= k < |words| :: IsClass(words[k]) && ClassIndex(words[k]) == |SIZES| - 1 - k)
    && (forall k | 0 <= k < |caches| :: caches[k].objectSize == SIZES[|SIZES| - 1 - k])
  }

  ghost function Bitmaps(all: set<Slab>): map<Slab, seq<bool>>
    reads all
  {
    map s | s in all :: s.bits
  }

  ghost predicate Marked(m: map<Slab, seq<bool>>, s: Slab, i: nat) {
    s in m && i < s.total && i < |m[s]| && m[s][i]
  }

  // The live objects are exactly the set bits.
  ghost predicate Exact(m: map<Slab, seq<bool>>, live: set<Object>) {
    && (forall o | o in live :: Marked(m, o.slab, o.index))
    && (forall s, i | s in m && 0 <= i < s.total && Marked(m, s, i) :: Object(s, i) in live)
  }

  lemma ExactSet(m: map<Slab, seq<bool>>, live: set<Object>, s: Slab, i: nat)
    requires Exact(m, live) && s in m && i < s.total && i < |m[s]| && !m[s][i]
    ensures Object(s, i) !in live && Exact(m[s := m[s][i := true]], live + {Object(s, i)})
  {
    var m' := m[s := m[s][i := true]];
    forall t, j | t in m' && 0 <= j < t.total && Marked(m', t, j)
      ensures Object(t, j) in live + {Object(s, i)}
    {
      if Object(t, j) != Object(s, i) { assert Marked(m, t, j); }
    }
    forall o | o in live
      ensures Marked(m', o.slab, o.index)
    {
      assert Marked(m, o.slab, o.index);
    }
  }

  lemma ExactNew(m: map<Slab, seq<bool>>, live: set<Object>, s: Slab, i: nat, b: seq<bool>)
    requires Exact(m, live) && s !in m && i < s.total && i < |b| && b[i] && forall j | 0 <= j < |b| && j != i :: !b[j]
    ensures Object(s, i) !in live && Exact(m[s := b], live + {Object(s, i)})
  {
    forall o | o in live
      ensures Marked(m[s := b], o.slab, o.index)
    {
      assert Marked(m, o.slab, o.index);
    }
    forall t, j | t in m[s := b] && 0 <= j < t.total && Marked(m[s := b], t, j)
      ensures Object(t, j) in live + {Object(s, i)}
    {
      if t != s { assert Marked(m, t, j); }
    }
  }

  lemma ExactClear(m: map<Slab, seq<bool>>, live: set<Object>, o: Object)
    requires Exact(m, live) && o in live && o.slab in m && o.index < |m[o.slab]|
    ensures Exact(Cleared(m, o), live - {o})
  {
    var m' := m[o.slab := m[o.slab][o.index := false]];
    forall p | p in live - {o}
      ensures Marked(m', p.slab, p.index)
    {
      assert Marked(m, p.slab, p.index);
    }
    forall t, j | t in m' && 0 <= j < t.total && Marked(m', t, j)
      ensures Object(t, j) in live - {o}
    {
      assert Marked(m, t, j);
    }
  }

  // What is known of the heap: the cache of each slab, and the objects handed out and not freed.
  datatype Ledger = Ledger(owner: map<Slab, nat>, live: set<Object>)

  // The slabs of each cache.
  ghost function Contents(caches: seq<Cache>): (r: seq<set<Slab>>)
    reads caches
    ensures |r| == |caches| && forall k | 0 <= k < |caches| :: r[k] == caches[k].slabs
  {
    if caches == [] then [] else Contents(caches[..|caches| - 1]) + [caches[|caches| - 1].slabs]
  }

  ghost predicate Owners(contents: seq<set<Slab>>, owner: map<Slab, nat>) {
    forall s | s in owner :: owner[s] < |contents| && s in contents[owner[s]]
  }

  ghost predicate Valid(caches: seq<Cache>, h: Ledger)
    reads caches, h.owner.Keys
  {
    Healthy(caches, h.owner.Keys) && Owners(Contents(caches), h.owner) && Exact(Bitmaps(h.owner.Keys), h.live)
  }

  // The walk of alloc over the caches.
  method FindCache(caches: seq<Cache>, words: seq<bv64>, roundSize: bv64) returns (k: nat)
    requires Listed(caches, words)
    ensures k <= |caches| && (k < |caches| <==> IsClass(roundSize))
    ensures k < |caches| ==> caches[k].objectSize == SIZES[ClassIndex(roundSize)] && caches[k].objectSize > 0
  {
    k := 0;
    while k < |caches| && words[k] != roundSize
      invariant k <= |caches|
      invariant forall j | 0 <= j < k :: words[j] != roundSize
    {
      k := k + 1;
    }
    WalkFinds(words, roundSize, k);
  }

  // Bit i of the slab is new, and alone if the slab is.
  ghost predicate OneMore(before: map<Slab, seq<bool>>, after: map<Slab, seq<bool>>, slab: Slab, i: nat) {
    && slab in after && i < |after[slab]| && after[slab][i] && after == before[slab := after[slab]]
    && (slab in before ==> i < |before[slab]| && !before[slab][i] && after[slab] == before[slab][i := true])
    && (slab !in before ==> forall j | 0 <= j < |after[slab]| && j != i :: !after[slab][j])
  }

  lemma Recorded(before: map<Slab, seq<bool>>, after: map<Slab, seq<bool>>, live: set<Object>, slab: Slab, i: nat)
    requires Exact(before, live) && i < slab.total && OneMore(before, after, slab, i)
    ensures Object(slab, i) !in live && Exact(after, live + {Object(slab, i)})
  {
    if slab in before {
      ExactSet(before, live, slab, i);
    } else {
      ExactNew(before, live, slab, i, after[slab]);
    }
  }

  ghost predicate Grown(before: seq<set<Slab>>, after: seq<set<Slab>>, k: nat, slab: Slab) {
    && k < |after| == |before| && slab in after[k]
    && forall j | 0 <= j < |before| :: before[j] <= after[j]
  }

  lemma OwnersGrow(before: seq<set<Slab>>, after: seq<set<Slab>>, owner: map<Slab, nat>, slab: Slab, k: nat)
    requires Owners(before, owner) && Grown(before, after, k, slab)
    ensures Owners(after, owner[slab := k])
  {}

  // AllocClass, seen on the bitmaps of all slabs.
  method AllocBit(caches: seq<Cache>, k: nat, page: nat, ram: Ram, ghost all: set<Slab>)
    returns (obj: nat, ghost slab: Slab, ghost i: nat)
    requires k < |caches| && Healthy(caches, all) && page % PAGE == 0 && caches[k].objectSize > 0
    requires PagesFree(all, page, PagesPerSlab(caches[k].objectSize))
    modifies caches[k], caches[k].slabs, ram
    ensures Healthy(caches, all + {slab}) && slab in caches[k].slabs && (slab in all || fresh(slab))
    ensures slab.objectSize == caches[k].objectSize
    ensures Grown(old(Contents(caches)), Contents(caches), k, slab)
    ensures i < slab.total && obj == ObjectAt(slab.buffer, caches[k].objectSize, i)
    ensures Zeroed(ram.bytes, old(ram.bytes), obj, caches[k].objectSize)
    ensures slab !in all ==> slab.base == page && slab.pages == PagesPerSlab(caches[k].objectSize)
    ensures OneMore(old(Bitmaps(all)), Bitmaps(all + {slab}), slab, i)
  {
    obj, slab, i := AllocClass(caches, k, page, ram, all);
    ghost var before, after := old(Bitmaps(all)), Bitmaps(all + {slab});
    assert after == before[slab := slab.bits];
    assert Sound(caches, k, all + {slab});
  }

  // cache_alloc_obj on one of the caches: one more live object, zeroed.
  method AllocIn(caches: seq<Cache>, k: nat, page: nat, ram: Ram, ghost h: Ledger)
    returns (obj: nat, ghost o: Object, ghost h': Ledger)
    requires k < |caches| && Valid(caches, h) && page % PAGE == 0 && caches[k].objectSize > 0
    requires PagesFree(h.owner.Keys, page, PagesPerSlab(caches[k].objectSize))
    modifies caches[k], caches[k].slabs, ram
    ensures Valid(caches, h') && o !in h.live && h' == Ledger(h.owner[o.slab := k], h.live + {o})
    ensures obj == Address(o) && o.slab.objectSize == caches[k].objectSize
    ensures Zeroed(ram.bytes, old(ram.bytes), obj, caches[k].objectSize)
    ensures o.slab !in h.owner ==> o.slab.base == page && o.slab.pages == PagesPerSlab(caches[k].objectSize)
    ensures o.slab !in h.owner ==> fresh(o.slab)
  {
    ghost var slab, i;
    obj, slab, i := AllocBit(caches, k, page, ram, h.owner.Keys);
    o := Object(slab, i);
    h' := Ledger(h.owner[slab := k], h.live + {o});
    assert h'.owner.Keys == h.owner.Keys + {slab};
    Recorded(old(Bitmaps(h.owner.Keys)), Bitmaps(h'.owner.Keys), h.live, slab, i);
    OwnersGrow(old(Contents(caches)), Contents(caches), h.owner, slab, k);
  }

  // One more live object of n bytes at `obj`, zeroed.
  ghost predicate Granted(h: Ledger, h': Ledger, obj: nat, o: Object, n: nat, now: map<nat, bv8>,
                          before: map<nat, bv8>) {
    && o !in h.live && h'.live == h.live + {o} && obj == Address(o) && o.slab.objectSize == n
    && Zeroed(now, before, obj, n)
  }

  // The slabs of h' are those of h and at most one on the new pages.
  ghost predicate Extends(h: Ledger, h': Ledger, page: nat, n: nat) {
    && h.owner.Keys <= h'.owner.Keys
    && forall s | s in h'.owner && s !in h.owner :: s.base == page && s.pages == PagesPerSlab(n)
  }

  // alloc once the cache is found, or not found.
  method AllocAt(caches: seq<Cache>, k: nat, page: nat, ram: Ram, ghost h: Ledger)
    returns (obj: Option<nat>, ghost o: Option<Object>, ghost h': Ledger)
    requires k <= |caches| && Valid(caches, h) && page % PAGE == 0
    requires k < |caches| ==>
      caches[k].objectSize > 0 && PagesFree(h.owner.Keys, page, PagesPerSlab(caches[k].objectSize))
    modifies caches, h.owner.Keys, ram
    ensures Valid(caches, h') && (obj.Some? <==> k < |caches|)
    ensures obj.None? ==> h' == h && ram.bytes == old(ram.bytes)
    ensures obj.Some? ==> Extends(h, h', page, caches[k].objectSize)
    ensures forall s | s in h'.owner && s !in h.owner :: fresh(s)
    ensures obj.Some? ==>
      o.Some? && Granted(h, h', obj.value, o.value, caches[k].objectSize, ram.bytes, old(ram.bytes))
  {
    obj, o, h' := None, None, h;
    if k < |caches| {
      var addr;
      ghost var x;
      assert Sound(caches, k, h.owner.Keys);
      addr, x, h' := AllocIn(caches, k, page, ram, h);
      obj, o := Some(addr), Some(x);
    }
  }

  // An object of b bytes serves the request: it is strictly larger, and no smaller class is; a request that wraps gets
  // 32 bytes.
  ghost predicate Suits(size: bv64, b: nat) {
    && b in SIZES
    && (1 <= size <= 16383 ==> exists r: bv64 :: ServedBy(size, b, r))
    && (size >= 16384 ==> b == 32)
  }

  ghost predicate ServedBy(size: bv64, b: nat, r: bv64) {
    IsClass(r) && b == SIZES[ClassIndex(r)] && size < r && (r > 32 ==> (r >> 1) <= size)
  }

  lemma Chosen(size: bv64, r: bv64, b: nat)
    requires size != 0 && r == RoundSize(size) && IsClass(r) && b == SIZES[ClassIndex(r)]
    requires size <= 16383 ==> size < r && (r > 32 ==> (r >> 1) <= size)
    ensures Suits(size, b)
  {
    if size <= 16383 {
      assert ServedBy(size, b, r);
    } else {
      LargeRequests(size);
    }
  }

  // The start of alloc: the rounding and the walk.
  method ChooseCache(caches: seq<Cache>, words: seq<bv64>, size: bv64) returns (k: nat)
    requires Listed(caches, words)
    ensures k <= |caches| && (k < |caches| <==> Served(size))
    ensures k < |caches| ==> caches[k].objectSize > 0 && Suits(size, caches[k].objectSize)
  {
    if size == 0 {
      return |caches|;
    }
    var roundSize := RoundRequest(size);
    k := FindCache(caches, words, roundSize);
    if k < |caches| { Chosen(size, roundSize, caches[k].objectSize); }
  }

  // alloc. `page` is what pmm_alloc would return for a new slab, and `bytes` the size of the object.
  method Alloc(caches: seq<Cache>, words: seq<bv64>, size: bv64, page: nat, ram: Ram, ghost h: Ledger)
    returns (obj: Option<nat>, bytes: nat, ghost o: Option<Object>, ghost h': Ledger)
    requires Listed(caches, words) && Valid(caches, h) && page % PAGE == 0
    requires forall b | b in SIZES :: PagesFree(h.owner.Keys, page, PagesPerSlab(b))
    modifies caches, h.owner.Keys, ram
    ensures Valid(caches, h') && (obj.Some? <==> Served(size))
    ensures forall s | s in h'.owner && s !in h.owner :: fresh(s)
    ensures obj.None? ==> h' == h && ram.bytes == old(ram.bytes)
    ensures obj.Some? ==>
      && o.Some? && Suits(size, bytes) && Extends(h, h', page, bytes)
      && Granted(h, h', obj.value, o.value, bytes, ram.bytes, old(ram.bytes))
  {
    var k := ChooseCache(caches, words, size);
    bytes := if k < |caches| then caches[k].objectSize else 0;
    obj, o, h' := AllocAt(caches, k, page, ram, h);
  }

  // free of a live object, seen on the bitmaps of all slabs: its bit is cleared, and no other.
  method FreeBit(caches: seq<Cache>, obj: nat, ghost all: set<Slab>, ghost k: nat, ghost o: Object)
    requires k < |caches| && Healthy(caches, all) && o.slab in caches[k].slabs && obj == Address(o)
    requires o.slab in all && Marked(Bitmaps(all), o.slab, o.index)
    modifies all`bits, all`available
    ensures Healthy(caches, all) && Contents(caches) == old(Contents(caches))
    ensures Bitmaps(all) == Cleared(old(Bitmaps(all)), o)
  {
    LiveFreeable(caches, all, k, o.slab, o.index, obj);
    var found;
    ghost var slab, at;
    ghost var before := Bitmaps(all);
    found, slab, at := Free(caches, obj, all);
    assert !Misses(caches, k, obj);
    assert found;
    assert !Misses(caches, at, obj);
    assert slab == o.slab;
    assert Bitmaps(all) == before[o.slab := before[o.slab][o.index := false]];
  }

  ghost function Cleared(m: map<Slab, seq<bool>>, o: Object): map<Slab, seq<bool>>
    requires o.slab in m && o.index < |m[o.slab]|
  {
    m[o.slab := m[o.slab][o.index := false]]
  }

  // free of a live object.
  method Release(caches: seq<Cache>, obj: nat, ghost o: Object, ghost h: Ledger) returns (ghost h': Ledger)
    requires Valid(caches, h) && o in h.live && obj == Address(o)
    modifies h.owner.Keys`bits, h.owner.Keys`available
    ensures Valid(caches, h') && h' == Ledger(h.owner, h.live - {o})
    ensures Marked(old(Bitmaps(h.owner.Keys)), o.slab, o.index)
    ensures Bitmaps(h.owner.Keys) == Cleared(old(Bitmaps(h.owner.Keys)), o)
  {
    ghost var k := LiveOwner(caches, h, o);
    ExactClear(Bitmaps(h.owner.Keys), h.live, o);
    FreeBit(caches, obj, h.owner.Keys, k, o);
    h' := Ledger(h.owner, h.live - {o});
  }

  ghost function LiveOwner(caches: seq<Cache>, h: Ledger, o: Object): (k: nat)
    requires Valid(caches, h) && o in h.live
    reads caches, h.owner.Keys
    ensures k < |caches| && o.slab in h.owner && o.slab in caches[k].slabs
    ensures Marked(Bitmaps(h.owner.Keys), o.slab, o.index)
  {
    assert Marked(Bitmaps(h.owner.Keys), o.slab, o.index);
    h.owner[o.slab]
  }

  // Two live objects share no byte, and lie in the pages of their slabs behind header and bitmap.
  lemma LiveDisjoint(caches: seq<Cache>, h: Ledger, o: Object, p: Object, a: nat)
    requires Valid(caches, h) && o in h.live && p in h.live
    requires Address(o) <= a < Address(o) + o.slab.objectSize && Address(p) <= a < Address(p) + p.slab.objectSize
    ensures o == p && o.slab.base + SLAB_HEADER + BITMAP <= a < o.slab.base + o.slab.pages * PAGE
  {
    var j, k := LiveOwner(caches, h, o), LiveOwner(caches, h, p);
    assert Sound(caches, j, h.owner.Keys) && Sound(caches, k, h.owner.Keys);
    ObjectsDisjoint(h.owner.Keys, o.slab, o.index, p.slab, p.index, a);
  }

  // A live byte lies in no page of another slab and, within its own, neither in header or bitmap nor in the record of
  // the cache.
  lemma LiveClear(caches: seq<Cache>, h: Ledger, o: Object, a: nat, k: nat)
    requires Valid(caches, h) && o in h.live && Address(o) <= a < Address(o) + o.slab.objectSize && k < |caches|
    ensures !(caches[k].Record() <= a < caches[k].Record() + CACHE_RECORD)
    ensures o.slab.base + SLAB_HEADER + BITMAP <= a < o.slab.base + o.slab.pages * PAGE
    ensures forall s | s in h.owner && s != o.slab :: !(s.base <= a < s.base + s.pages * PAGE)
  {
    var j := LiveOwner(caches, h, o);
    assert Sound(caches, j, h.owner.Keys) && Sound(caches, k, h.owner.Keys);
    assert o.slab != caches[k].root ==> PagesApart(o.slab, caches[k].root);
    ByteInPages(o.slab, o.index, a);
    ClearOfRecord(caches[k], o.slab, o.index, a);
    forall s | s in h.owner && s != o.slab
      ensures !(s.base <= a < s.base + s.pages * PAGE)
    {
      assert PagesApart(s, o.slab);
    }
  }

  // ----- boot -----

  ghost function Shifted(owner: map<Slab, nat>, s: Slab): map<Slab, nat> {
    (map t | t in owner :: owner[t] + 1)[s := 0]
  }

  lemma OwnersShift(before: seq<set<Slab>>, after: seq<set<Slab>>, owner: map<Slab, nat>, s: Slab)
    requires Owners(before, owner) && |after| == |before| + 1 && s in after[0]
    requires forall k | 0 <= k < |before| :: after[k + 1] == before[k]
    ensures Owners(after, Shifted(owner, s))
  {}

  lemma ExactAdd(m: map<Slab, seq<bool>>, live: set<Object>, s: Slab, b: seq<bool>)
    requires Exact(m, live) && s !in m && forall j | 0 <= j < |b| :: !b[j]
    ensures Exact(m[s := b], live)
  {
    forall o | o in live
      ensures Marked(m[s := b], o.slab, o.index)
    {
      assert Marked(m, o.slab, o.index);
    }
    forall t, j | t in m[s := b] && 0 <= j < t.total && Marked(m[s := b], t, j)
      ensures Object(t, j) in live
    {
      assert t != s && Marked(m, t, j);
    }
  }

  // A cache with one new slab, in front of the list.
  method AddCache(caches: seq<Cache>, objectSize: nat, page: nat, ghost all: set<Slab>) returns (c: Cache)
    requires Healthy(caches, all) && page % PAGE == 0 && objectSize > 0 && RootObjects(objectSize) >= 2
    requires PagesFree(all, page, PagesPerSlab(objectSize))
    ensures fresh(c) && fresh(c.root) && c.objectSize == objectSize && c.slabs == {c.root}
    ensures c.root.base == page && c.root.pages == PagesPerSlab(objectSize)
    ensures forall j | 0 <= j < |c.root.bits| :: !c.root.bits[j]
    ensures Healthy([c] + caches, all + {c.root})
  {
    c := new Cache(objectSize, page);
    ApartGrown(all, c.root, page, PagesPerSlab(objectSize));
    ghost var list, all' := [c] + caches, all + {c.root};
    forall k | 0 <= k < |list|
      ensures Sound(list, k, all')
    {
      if k > 0 { assert list[k] == caches[k - 1] && old(Sound(caches, k - 1, all)); }
    }
    forall a, b | 0 <= a < b < |list|
      ensures Unshared(list, a, b)
    {
      assert list[b] == caches[b - 1] && old(Sound(caches, b - 1, all));
      if a > 0 { assert list[a] == caches[a - 1] && old(Unshared(caches, a - 1, b - 1)); }
    }
  }

  // slab_cache_create
  method Create(caches: seq<Cache>, objectSize: nat, page: nat, ghost h: Ledger)
    returns (caches': seq<Cache>, ghost h': Ledger)
    requires Valid(caches, h) && page % PAGE == 0 && objectSize > 0 && RootObjects(objectSize) >= 2
    requires PagesFree(h.owner.Keys, page, PagesPerSlab(objectSize))
    ensures |caches'| == |caches| + 1 && caches'[1..] == caches && fresh(caches'[0])
    ensures caches'[0].objectSize == objectSize
    ensures Valid(caches', h') && h'.live == h.live && h'.owner.Keys == h.owner.Keys + {caches'[0].root}
    ensures var s := caches'[0].root; fresh(s) && s.base == page && s.pages == PagesPerSlab(objectSize)
  {
    var c := AddCache(caches, objectSize, page, h.owner.Keys);
    caches' := [c] + caches;
    h' := Ledger(Shifted(h.owner, c.root), h.live);
    assert h'.owner.Keys == h.owner.Keys + {c.root};
    assert Bitmaps(h'.owner.Keys) == Bitmaps(h.owner.Keys)[c.root := c.root.bits];
    ExactAdd(Bitmaps(h.owner.Keys), h.live, c.root, c.root.bits);
    OwnersShift(Contents(caches), Contents(caches'), h.owner, c.root);
  }

  // The page runs given to the caches at boot are aligned and apart.
  ghost predicate BootPages(pages: seq<nat>) {
    && |pages| == |SIZES|
    && (forall k | 0 <= k < |pages| :: pages[k] % PAGE == 0)
    && forall j, k | 0 <= j < k < |pages| ::
         pages[j] + PagesPerSlab(SIZES[j]) * PAGE <= pages[k] || pages[k] + PagesPerSlab(SIZES[k]) * PAGE <= pages[j]
  }

  // The first slab of the cache created as number j.
  ghost predicate Booted(pages: seq<nat>, n: nat, s: Slab) {
    exists j :: 0 <= j < n <= |pages| && j < |SIZES| && s.base == pages[j] && s.pages == PagesPerSlab(SIZES[j])
  }

  lemma StillUnused(pages: seq<nat>, n: nat, all: set<Slab>)
    requires BootPages(pages) && n < |pages| && forall s | s in all :: Booted(pages, n, s)
    ensures PagesFree(all, pages[n], PagesPerSlab(SIZES[n]))
  {
    forall s | s in all
      ensures s.base + s.pages * PAGE <= pages[n] || pages[n] + PagesPerSlab(SIZES[n]) * PAGE <= s.base
    {
      assert Booted(pages, n, s);
    }
  }

  lemma Embeds(b: nat)
    requires b in SIZES
    ensures RootObjects(b) >= 2
  {}

  lemma AllBooted(pages: seq<nat>, n: nat, all: set<Slab>, s: Slab)
    requires |pages| == |SIZES| && n < |pages| && s.base == pages[n] && s.pages == PagesPerSlab(SIZES[n])
    requires forall t | t in all :: Booted(pages, n, t)
    ensures forall t | t in all + {s} :: Booted(pages, n + 1, t)
  {
    forall t | t in all
      ensures Booted(pages, n + 1, t)
    {
      assert Booted(pages, n, t);
    }
  }

  // The first n classes, the last one created first.
  ghost predicate Ordered(caches: seq<Cache>, n: nat) {
    |caches| == n <= |SIZES| && forall k | 0 <= k < n :: caches[k].objectSize == SIZES[n - 1 - k]
  }

  lemma OrderedNext(caches: seq<Cache>, caches': seq<Cache>, n: nat)
    requires Ordered(caches, n) && n < |SIZES| && |caches'| == n + 1 && caches'[1..] == caches
    requires caches'[0].objectSize == SIZES[n]
    ensures Ordered(caches', n + 1)
  {
    forall k | 0 <= k < n + 1
      ensures caches'[k].objectSize == SIZES[n - k]
    {
      if k > 0 { assert caches'[k] == caches'[1..][k - 1]; }
    }
  }

  lemma FreshNext<T>(list: seq<T>, list': seq<T>)
    requires |list'| == |list| + 1 && list'[1..] == list
    ensures forall x | x in list' :: x == list'[0] || x in list
  {
    assert list' == [list'[0]] + list'[1..];
  }

  // One of the calls of slab_cache_create in main.c.
  method BootNext(caches: seq<Cache>, n: nat, pages: seq<nat>, ghost h: Ledger)
    returns (caches': seq<Cache>, ghost h': Ledger)
    requires BootPages(pages) && n < |SIZES| && Ordered(caches, n) && Valid(caches, h) && h.live == {}
    requires forall s | s in h.owner.Keys :: Booted(pages, n, s)
    ensures Ordered(caches', n + 1) && Valid(caches', h') && h'.live == {}
    ensures forall c | c in caches' && c !in caches :: fresh(c)
    ensures forall s | s in h'.owner.Keys && s !in h.owner.Keys :: fresh(s)
    ensures forall s | s in h'.owner.Keys :: Booted(pages, n + 1, s)
  {
    StillUnused(pages, n, h.owner.Keys);
    Embeds(SIZES[n]);
    caches', h' := Create(caches, SIZES[n], pages[n], h);
    OrderedNext(caches, caches', n);
    FreshNext(caches, caches');
    AllBooted(pages, n, h.owner.Keys, caches'[0].root);
  }

  // All of them, smallest class first: the heap that alloc and free work on.
  method Boot(pages: seq<nat>) returns (caches: seq<Cache>, words: seq<bv64>, ghost h: Ledger)
    requires BootPages(pages)
    ensures Listed(caches, words) && Valid(caches, h) && h.live == {}
    ensures (forall c | c in caches :: fresh(c)) && fresh(h.owner.Keys)
    ensures forall s | s in h.owner.Keys :: Booted(pages, |pages|, s)
  {
    caches, h := [], Ledger(map[], {});
    for n := 0 to |SIZES|
      invariant Ordered(caches, n) && Valid(caches, h) && h.live == {}
      invariant (forall c | c in caches :: fresh(c)) && fresh(h.owner.Keys)
      invariant forall s | s in h.owner.Keys :: Booted(pages, n, s)
    {
      caches, h := BootNext(caches, n, pages, h);
    }
    words := [16384, 8192, 4096, 2048, 1024, 512, 256, 128, 64, 32];
    AllListed(caches, words);
  }

  lemma AllListed(caches: seq<Cache>, words: seq<bv64>)
    requires Ordered(caches, |SIZES|) && words == [16384, 8192, 4096, 2048, 1024, 512, 256, 128, 64, 32]
    ensures Listed(caches, words)
  {}

  // ----- runs -----

  // A request for memory, with the pages that pmm_alloc would return meanwhile, a store into what request n got, or its
  // return.
  datatype Request = Get(size: bv64, page: nat) | Store(n: nat, at: nat, value: bv8) | Drop(n: nat)

  // The runs of pages offered are aligned, apart from each other and used by no slab.
  ghost predicate Supplied(requests: seq<Request>, all: set<Slab>) {
    && (forall i | 0 <= i < |requests| && requests[i].Get? ::
          requests[i].page % PAGE == 0 && PagesFree(all, requests[i].page, MOST_PAGES))
    && (forall i, j | 0 <= i < j < |requests| && requests[i].Get? && requests[j].Get? ::
          PageRunsApart(requests[i].page, requests[j].page))
  }

  // The pages of a slab of the largest class.
  const MOST_PAGES: nat := 1025

  ghost predicate PageRunsApart(p: nat, q: nat) {
    p + MOST_PAGES * PAGE <= q || q + MOST_PAGES * PAGE <= p
  }

  lemma MostPages(b: nat)
    requires b in SIZES
    ensures PagesPerSlab(b) <= MOST_PAGES
  {}

  // The slabs that are new since the beginning were made on pages offered with earlier requests.
  ghost predicate Made(requests: seq<Request>, i: nat, s: Slab) {
    exists j :: 0 <= j < i <= |requests| && requests[j].Get? && s.base == requests[j].page && s.pages <= MOST_PAGES
  }

  ghost function HeldObjects(objects: seq<Option<Object>>, held: set<nat>): set<Object> {
    set n | n in held && n < |objects| && objects[n].Some? :: objects[n].value
  }

  // What the requests got, and what of it is still held: exactly that is live beyond what was live before.
  ghost predicate Kept(live0: set<Object>, live: set<Object>, replies: seq<Option<nat>>, objects: seq<Option<Object>>,
                       held: set<nat>)
  {
    && |objects| == |replies|
    && (forall n | n in held ::
          n < |replies| && replies[n].Some? && objects[n].Some? && replies[n].value == Address(objects[n].value))
    && (forall m, n | m in held && n in held && m != n && m < |objects| && n < |objects| :: objects[m] != objects[n])
    && live0 !! HeldObjects(objects, held) && live == live0 + HeldObjects(objects, held)
  }

  lemma KeptGet(live0: set<Object>, live: set<Object>, replies: seq<Option<nat>>, objects: seq<Option<Object>>,
                held: set<nat>, obj: nat, o: Object)
    requires Kept(live0, live, replies, objects, held) && o !in live && obj == Address(o)
    ensures Kept(live0, live + {o}, replies + [Some(obj)], objects + [Some(o)], held + {|replies|})
  {
    var objects', held' := objects + [Some(o)], held + {|replies|};
    forall n | n in held
      ensures objects[n].Some? && objects[n].value in live
    {
      assert objects[n].value in HeldObjects(objects, held);
    }
    forall x | x in HeldObjects(objects, held) + {o}
      ensures x in HeldObjects(objects', held')
    {
      if x == o {
        assert objects'[|replies|].value == o;
      } else {
        var n :| n in held && n < |objects| && objects[n].Some? && objects[n].value == x;
        assert objects'[n].value == x;
      }
    }
    assert HeldObjects(objects', held') == HeldObjects(objects, held) + {o};
  }

  lemma KeptNone(live0: set<Object>, live: set<Object>, replies: seq<Option<nat>>, objects: seq<Option<Object>>,
                 held: set<nat>)
    requires Kept(live0, live, replies, objects, held)
    ensures Kept(live0, live, replies + [None], objects + [None], held)
  {
    var objects' := objects + [None];
    forall x | x in HeldObjects(objects, held)
      ensures x in HeldObjects(objects', held)
    {
      var n :| n in held && n < |objects| && objects[n].Some? && objects[n].value == x;
      assert objects'[n].value == x;
    }
    assert HeldObjects(objects', held) == HeldObjects(objects, held);
  }

  lemma KeptDrop(live0: set<Object>, live: set<Object>, replies: seq<Option<nat>>, objects: seq<Option<Object>>,
                 held: set<nat>, n: nat)
    requires Kept(live0, live, replies, objects, held) && n in held
    ensures objects[n].value in live
    ensures Kept(live0, live - {objects[n].value}, replies, objects, held - {n})
  {
    var o := objects[n].value;
    assert o in HeldObjects(objects, held);
    forall x | x in HeldObjects(objects, held) && x != o
      ensures x in HeldObjects(objects, held - {n})
    {
      var m :| m in held && m < |objects| && objects[m].Some? && objects[m].value == x;
      assert m in held - {n};
    }
    forall x | x in HeldObjects(objects, held - {n})
      ensures x in HeldObjects(objects, held) && x != o
    {
      var m :| m in held - {n} && m < |objects| && objects[m].Some? && objects[m].value == x;
      assert objects[m] != objects[n];
    }
    assert HeldObjects(objects, held - {n}) == HeldObjects(objects, held) - {o};
  }

  // What was offered with the next request is still free.
  lemma StillFree(requests: seq<Request>, i: nat, all0: set<Slab>, all: set<Slab>, b: nat)
    requires Supplied(requests, all0) && i < |requests| && requests[i].Get? && b in SIZES
    requires forall s | s in all && s !in all0 :: Made(requests, i, s)
    ensures PagesFree(all, requests[i].page, PagesPerSlab(b))
  {
    MostPages(b);
    var page := requests[i].page;
    forall s | s in all
      ensures s.base + s.pages * PAGE <= page || page + PagesPerSlab(b) * PAGE <= s.base
    {
      if s !in all0 {
        var j :| 0 <= j < i && requests[j].Get? && s.base == requests[j].page && s.pages <= MOST_PAGES;
        assert PageRunsApart(requests[j].page, page);
      }
    }
  }

  lemma AllStillFree(requests: seq<Request>, i: nat, all0: set<Slab>, all: set<Slab>)
    requires Supplied(requests, all0) && i < |requests| && requests[i].Get?
    requires forall s | s in all && s !in all0 :: Made(requests, i, s)
    ensures forall b | b in SIZES :: PagesFree(all, requests[i].page, PagesPerSlab(b))
  {
    forall b | b in SIZES
      ensures PagesFree(all, requests[i].page, PagesPerSlab(b))
    {
      StillFree(requests, i, all0, all, b);
    }
  }

  // The answer is what alloc promises for the request.
  ghost predicate AnswerOk(request: Request, reply: Option<nat>, o: Option<Object>) {
    request.Get? ==>
      && (reply.Some? <==> Served(request.size))
      && (reply.Some? ==> o.Some? && Suits(request.size, o.value.slab.objectSize))
  }

  // The account of a run after i requests.
  ghost predicate RunOk(requests: seq<Request>, i: nat, h0: Ledger, h: Ledger, replies: seq<Option<nat>>,
                        objects: seq<Option<Object>>, held: set<nat>)
  {
    && i <= |requests| && |replies| == |objects| == i
    && (forall j | 0 <= j < i :: AnswerOk(requests[j], replies[j], objects[j]))
    && Kept(h0.live, h.live, replies, objects, held)
    && (forall s | s in h.owner && s !in h0.owner :: Made(requests, i, s))
  }

  lemma RunNext(requests: seq<Request>, i: nat, h0: Ledger, h: Ledger, h': Ledger, replies: seq<Option<nat>>,
                objects: seq<Option<Object>>, held: set<nat>, held': set<nat>, reply: Option<nat>, o: Option<Object>)
    requires RunOk(requests, i, h0, h, replies, objects, held) && i < |requests|
    requires AnswerOk(requests[i], reply, o)
    requires Kept(h0.live, h'.live, replies + [reply], objects + [o], held')
    requires forall s | s in h'.owner && s !in h.owner ::
      requests[i].Get? && s.base == requests[i].page && s.pages <= MOST_PAGES
    ensures RunOk(requests, i + 1, h0, h', replies + [reply], objects + [o], held')
  {
    var replies', objects' := replies + [reply], objects + [o];
    forall j | 0 <= j < i + 1
      ensures AnswerOk(requests[j], replies'[j], objects'[j])
    {
      if j < i { assert AnswerOk(requests[j], replies[j], objects[j]); }
    }
    forall s | s in h'.owner && s !in h0.owner
      ensures Made(requests, i + 1, s)
    {
      StillMade(requests, i, h0.owner.Keys, h.owner.Keys, s);
    }
  }

  // What an answered request adds to the account.
  lemma RunGet(requests: seq<Request>, i: nat, h0: Ledger, h: Ledger, h': Ledger, replies: seq<Option<nat>>,
               objects: seq<Option<Object>>, held: set<nat>, obj: nat, o: Object)
    requires RunOk(requests, i, h0, h, replies, objects, held) && i < |requests| && requests[i].Get?
    requires AnswerOk(requests[i], Some(obj), Some(o)) && o.slab.objectSize in SIZES
    requires o !in h.live && h'.live == h.live + {o} && obj == Address(o)
    requires Extends(h, h', requests[i].page, o.slab.objectSize)
    ensures RunOk(requests, i + 1, h0, h', replies + [Some(obj)], objects + [Some(o)], held + {i})
  {
    KeptGet(h0.live, h.live, replies, objects, held, obj, o);
    MostPages(o.slab.objectSize);
    RunNext(requests, i, h0, h, h', replies, objects, held, held + {i}, Some(obj), Some(o));
  }

  lemma RunNone(requests: seq<Request>, i: nat, h0: Ledger, h: Ledger, replies: seq<Option<nat>>,
                objects: seq<Option<Object>>, held: set<nat>)
    requires RunOk(requests, i, h0, h, replies, objects, held) && i < |requests| && AnswerOk(requests[i], None, None)
    ensures RunOk(requests, i + 1, h0, h, replies + [None], objects + [None], held)
  {
    KeptNone(h0.live, h.live, replies, objects, held);
    RunNext(requests, i, h0, h, h, replies, objects, held, held, None, None);
  }

  lemma RunDrop(requests: seq<Request>, i: nat, h0: Ledger, h: Ledger, replies: seq<Option<nat>>,
                objects: seq<Option<Object>>, held: set<nat>, n: nat)
    requires RunOk(requests, i, h0, h, replies, objects, held) && n in held
    ensures n < |objects| && objects[n].Some? && replies[n].Some? && objects[n].value in h.live
    ensures replies[n].value == Address(objects[n].value)
    ensures RunOk(requests, i, h0, Ledger(h.owner, h.live - {objects[n].value}), replies, objects, held - {n})
  {
    KeptDrop(h0.live, h.live, replies, objects, held, n);
  }

  // A request for memory in a run.
  method GetStep(caches: seq<Cache>, words: seq<bv64>, requests: seq<Request>, i: nat, ram: Ram, ghost h0: Ledger,
                 ghost h: Ledger, ghost replies: seq<Option<nat>>, ghost objects: seq<Option<Object>>, held: set<nat>)
    returns (reply: Option<nat>, bytes: nat, held': set<nat>, ghost o: Option<Object>, ghost h': Ledger)
    requires Listed(caches, words) && Valid(caches, h) && Supplied(requests, h0.owner.Keys)
    requires RunOk(requests, i, h0, h, replies, objects, held) && i < |requests| && requests[i].Get?
    modifies caches, h.owner.Keys, ram
    ensures Valid(caches, h') && RunOk(requests, i + 1, h0, h', replies + [reply], objects + [o], held')
    ensures forall s | s in h'.owner && s !in h.owner :: fresh(s)
    ensures reply.None? ==> o.None? && held' == held && ram.bytes == old(ram.bytes)
    ensures reply.Some? ==>
      && o.Some? && held' == held + {i} && bytes == o.value.slab.objectSize
      && Zeroed(ram.bytes, old(ram.bytes), reply.value, bytes)
  {
    AllStillFree(requests, i, h0.owner.Keys, h.owner.Keys);
    reply, bytes, o, h' := Alloc(caches, words, requests[i].size, requests[i].page, ram, h);
    held' := held;
    if reply.Some? {
      RunGet(requests, i, h0, h, h', replies, objects, held, reply.value, o.value);
      held' := held + {i};
    } else {
      o := None;
      RunNone(requests, i, h0, h, replies, objects, held);
    }
  }

  // The return of an object in a run. Giving back what is not held is left out of it.
  method DropStep(caches: seq<Cache>, requests: seq<Request>, i: nat, ghost h0: Ledger, ghost h: Ledger,
                  replies: seq<Option<nat>>, ghost objects: seq<Option<Object>>, held: set<nat>)
    returns (held': set<nat>, ghost h': Ledger)
    requires Valid(caches, h)
    requires RunOk(requests, i, h0, h, replies, objects, held) && i < |requests| && requests[i].Drop?
    modifies h.owner.Keys`bits, h.owner.Keys`available
    ensures Valid(caches, h') && RunOk(requests, i + 1, h0, h', replies + [None], objects + [None], held')
    ensures h'.owner == h.owner && held' == held - {requests[i].n}
  {
    var n := requests[i].n;
    held', h' := held, h;
    if n in held {
      RunDrop(requests, i, h0, h, replies, objects, held, n);
      h' := Release(caches, replies[n].value, objects[n].value, h);
      held' := held - {n};
    }
    RunNone(requests, i, h0, h', replies, objects, held');
  }

  // What a run holds at the same time never overlaps.
  lemma HeldDisjoint(caches: seq<Cache>, requests: seq<Request>, i: nat, h0: Ledger, h: Ledger,
                     replies: seq<Option<nat>>, objects: seq<Option<Object>>, held: set<nat>, m: nat, n: nat, a: nat)
    requires Valid(caches, h) && RunOk(requests, i, h0, h, replies, objects, held)
    requires m in held && n in held && objects[m].Some? && objects[n].Some? && replies[m].Some? && replies[n].Some?
    requires replies[m].value <= a < replies[m].value + objects[m].value.slab.objectSize
    requires replies[n].value <= a < replies[n].value + objects[n].value.slab.objectSize
    ensures m == n
  {
    assert objects[m].value in HeldObjects(objects, held) && objects[n].value in HeldObjects(objects, held);
    LiveDisjoint(caches, h, objects[m].value, objects[n].value, a);
  }

  // What the holder of request n's object last stored at an offset, before request i; 0 if nothing.
  function LastStored(requests: seq<Request>, i: nat, n: nat, at: nat): bv8
    requires i <= |requests|
  {
    if i <= n + 1 then 0
    else if requests[i - 1].Store? && requests[i - 1].n == n && requests[i - 1].at == at then requests[i - 1].value
    else LastStored(requests, i - 1, n, at)
  }

  ghost predicate ByteAt(bytes: map<nat, bv8>, a: nat, value: bv8) { a in bytes && bytes[a] == value }

  // The byte at an offset of the object is its holder's.
  ghost predicate OwnByte(requests: seq<Request>, i: nat, n: nat, base: nat, size: nat, at: nat, bytes: map<nat, bv8>)
    requires i <= |requests|
  {
    at < size ==> ByteAt(bytes, base + at, LastStored(requests, i, n, at))
  }

  ghost predicate OwnBytes(requests: seq<Request>, i: nat, n: nat, base: nat, size: nat, bytes: map<nat, bv8>)
    requires i <= |requests|
  {
    forall at :: OwnByte(requests, i, n, base, size, at, bytes)
  }

  // Every held object has the bytes its holder stored, and zeroes elsewhere.
  ghost predicate Intact(requests: seq<Request>, i: nat, objects: seq<Option<Object>>, held: set<nat>,
                         bytes: map<nat, bv8>)
    requires i <= |requests|
  {
    forall n | n in held && n < |objects| && objects[n].Some? ::
      OwnBytes(requests, i, n, Address(objects[n].value), objects[n].value.slab.objectSize, bytes)
  }

  // A request that touches none of the object's bytes leaves them to their holder.
  lemma OwnedStill(requests: seq<Request>, i: nat, n: nat, base: nat, size: nat, before: map<nat, bv8>,
                   now: map<nat, bv8>)
    requires n < i < |requests| && OwnBytes(requests, i, n, base, size, before)
    requires requests[i].Store? && requests[i].n == n ==> size <= requests[i].at
    requires forall a | base <= a < base + size && a in before :: ByteAt(now, a, before[a])
    ensures OwnBytes(requests, i + 1, n, base, size, now)
  {
    var k := i + 1;
    forall at: nat
      ensures OwnByte(requests, k, n, base, size, at, now)
    {
      assert OwnByte(requests, i, n, base, size, at, before);
    }
  }

  lemma OwnedZero(requests: seq<Request>, i: nat, base: nat, size: nat, before: map<nat, bv8>, now: map<nat, bv8>)
    requires i < |requests| && Zeroed(now, before, base, size)
    ensures OwnBytes(requests, i + 1, i, base, size, now)
  {
    var k := i + 1;
    forall at: nat
      ensures OwnByte(requests, k, i, base, size, at, now)
    {
      if at < size { assert base <= base + at < base + size; }
    }
  }

  lemma OwnedStore(requests: seq<Request>, i: nat, base: nat, size: nat, bytes: map<nat, bv8>)
    requires i < |requests| && requests[i].Store? && requests[i].n < i && requests[i].at < size
    requires OwnBytes(requests, i, requests[i].n, base, size, bytes)
    ensures OwnBytes(requests, i + 1, requests[i].n, base, size, bytes[base + requests[i].at := requests[i].value])
  {
    var k, n := i + 1, requests[i].n;
    var now := bytes[base + requests[i].at := requests[i].value];
    forall at: nat
      ensures OwnByte(requests, k, n, base, size, at, now)
    {
      assert OwnByte(requests, i, n, base, size, at, bytes);
    }
  }

  ghost predicate Overlap(o: Object, p: Object) {
    Address(o) < Address(p) + p.slab.objectSize && Address(p) < Address(o) + o.slab.objectSize
  }

  ghost predicate HeldApart(objects: seq<Option<Object>>, held: set<nat>) {
    forall m, n | m in held && n in held && m != n && m < |objects| && n < |objects|
      && objects[m].Some? && objects[n].Some? :: !Overlap(objects[m].value, objects[n].value)
  }

  lemma LiveApart(caches: seq<Cache>, h: Ledger, o: Object, p: Object)
    requires Valid(caches, h) && o in h.live && p in h.live && o != p
    ensures !Overlap(o, p)
  {
    var k := LiveOwner(caches, h, o);
    var j := LiveOwner(caches, h, p);
    assert Sound(caches, k, h.owner.Keys) && Sound(caches, j, h.owner.Keys);
    if Overlap(o, p) {
      LiveDisjoint(caches, h, o, p, if Address(o) <= Address(p) then Address(p) else Address(o));
    }
  }

  lemma RunApart(caches: seq<Cache>, h: Ledger, live0: set<Object>, replies: seq<Option<nat>>,
                 objects: seq<Option<Object>>, held: set<nat>)
    requires Valid(caches, h) && Kept(live0, h.live, replies, objects, held)
    ensures HeldApart(objects, held)
  {
    forall o, p | o in h.live && p in h.live && o != p
      ensures !Overlap(o, p)
    {
      LiveApart(caches, h, o, p);
    }
    KeptApart(live0, h.live, replies, objects, held);
  }

  lemma KeptApart(live0: set<Object>, live: set<Object>, replies: seq<Option<nat>>, objects: seq<Option<Object>>,
                  held: set<nat>)
    requires Kept(live0, live, replies, objects, held)
    requires forall o, p | o in live && p in live && o != p :: !Overlap(o, p)
    ensures HeldApart(objects, held)
  {
    forall n | n in held
      ensures objects[n].Some? && objects[n].value in live
    {
      assert objects[n].value in HeldObjects(objects, held);
    }
  }

  lemma ZeroedApart(x: nat, size: nat, y: nat, n: nat, before: map<nat, bv8>, now: map<nat, bv8>)
    requires Zeroed(now, before, y, n) && !(x < y + n && y < x + size)
    ensures forall a | x <= a < x + size && a in before :: ByteAt(now, a, before[a])
  {}

  lemma IntactGet(requests: seq<Request>, i: nat, objects: seq<Option<Object>>, held: set<nat>, o: Object,
                  before: map<nat, bv8>, now: map<nat, bv8>)
    requires i < |requests| && requests[i].Get? && |objects| == i && i !in held
    requires HeldApart(objects + [Some(o)], held + {i})
    requires Intact(requests, i, objects, held, before) && Zeroed(now, before, Address(o), o.slab.objectSize)
    ensures Intact(requests, i + 1, objects + [Some(o)], held + {i}, now)
  {
    var k, objects', held' := i + 1, objects + [Some(o)], held + {i};
    OwnedZero(requests, i, Address(o), o.slab.objectSize, before, now);
    forall n | n in held' && n < |objects'| && objects'[n].Some?
      ensures OwnBytes(requests, k, n, Address(objects'[n].value), objects'[n].value.slab.objectSize, now)
    {
      if n != i {
        var x := objects[n].value;
        assert objects'[n] == objects[n] && objects'[i] == Some(o);
        assert !Overlap(x, o);
        ZeroedApart(Address(x), x.slab.objectSize, Address(o), o.slab.objectSize, before, now);
        OwnedStill(requests, i, n, Address(x), x.slab.objectSize, before, now);
      }
    }
  }

  lemma IntactStore(requests: seq<Request>, i: nat, objects: seq<Option<Object>>, held: set<nat>,
                    bytes: map<nat, bv8>)
    requires i < |requests| && requests[i].Store? && |objects| == i && HeldApart(objects, held)
    requires requests[i].n in held && requests[i].n < i
    requires var x := objects[requests[i].n]; x.Some? && requests[i].at < x.value.slab.objectSize
    requires Intact(requests, i, objects, held, bytes)
    ensures var a := Address(objects[requests[i].n].value) + requests[i].at;
      Intact(requests, i + 1, objects + [None], held, bytes[a := requests[i].value])
  {
    var k, m, objects' := i + 1, requests[i].n, objects + [None];
    var a := Address(objects[m].value) + requests[i].at;
    var now := bytes[a := requests[i].value];
    OwnedStore(requests, i, Address(objects[m].value), objects[m].value.slab.objectSize, bytes);
    forall n | n in held && n < |objects'| && objects'[n].Some?
      ensures OwnBytes(requests, k, n, Address(objects'[n].value), objects'[n].value.slab.objectSize, now)
    {
      assert objects'[n] == objects[n];
      if n != m {
        assert !Overlap(objects[n].value, objects[m].value);
        OwnedStill(requests, i, n, Address(objects[n].value), objects[n].value.slab.objectSize, bytes, now);
      }
    }
  }

  // A request that stores nothing into what is held after it.
  lemma IntactSame(requests: seq<Request>, i: nat, objects: seq<Option<Object>>, held: set<nat>, held': set<nat>,
                   bytes: map<nat, bv8>)
    requires i < |requests| && |objects| == i && held' <= held && Intact(requests, i, objects, held, bytes)
    requires requests[i].Store? && requests[i].n in held' && requests[i].n < i && objects[requests[i].n].Some? ==>
      objects[requests[i].n].value.slab.objectSize <= requests[i].at
    ensures Intact(requests, i + 1, objects + [None], held', bytes)
  {
    var k, objects' := i + 1, objects + [None];
    forall n | n in held' && n < |objects'| && objects'[n].Some?
      ensures OwnBytes(requests, k, n, Address(objects'[n].value), objects'[n].value.slab.objectSize, bytes)
    {
      assert objects'[n] == objects[n];
      OwnedStill(requests, i, n, Address(objects[n].value), objects[n].value.slab.objectSize, bytes, bytes);
    }
  }

  ghost predicate Sized(sizes: seq<nat>, objects: seq<Option<Object>>, held: set<nat>) {
    && |sizes| == |objects|
    && forall n | n in held && n < |objects| && objects[n].Some? :: sizes[n] == objects[n].value.slab.objectSize
  }

  lemma IntactAnswer(requests: seq<Request>, i: nat, live0: set<Object>, live: set<Object>,
                     replies: seq<Option<nat>>, sizes: seq<nat>, objects: seq<Option<Object>>, held: set<nat>,
                     reply: Option<nat>, bytes: nat, o: Option<Object>, before: map<nat, bv8>, now: map<nat, bv8>)
    requires i < |requests| && requests[i].Get? && |objects| == i && (forall n | n in held :: n < i)
    requires Sized(sizes, objects, held) && Intact(requests, i, objects, held, before)
    requires reply.None? ==> o.None? && now == before
    requires reply.Some? ==>
      && o.Some? && bytes == o.value.slab.objectSize && Zeroed(now, before, reply.value, bytes)
      && Kept(live0, live, replies + [reply], objects + [o], held + {i}) && HeldApart(objects + [o], held + {i})
    ensures var held' := if reply.Some? then held + {i} else held;
      Sized(sizes + [bytes], objects + [o], held') && Intact(requests, i + 1, objects + [o], held', now)
  {
    if reply.Some? {
      assert i in held + {i} && |replies| == i;
      assert (replies + [reply])[i] == reply && (objects + [o])[i] == o;
      IntactGet(requests, i, objects, held, o.value, before, now);
    } else {
      IntactSame(requests, i, objects, held, held, now);
    }
  }

  // A request for memory: its object is zeroed, and no byte of another one changes.
  method GetIntact(caches: seq<Cache>, words: seq<bv64>, requests: seq<Request>, i: nat, ram: Ram, ghost h0: Ledger,
                   ghost h: Ledger, ghost replies: seq<Option<nat>>, ghost sizes: seq<nat>,
                   ghost objects: seq<Option<Object>>, held: set<nat>)
    returns (reply: Option<nat>, bytes: nat, held': set<nat>, ghost o: Option<Object>, ghost h': Ledger)
    requires Listed(caches, words) && Valid(caches, h) && Supplied(requests, h0.owner.Keys)
    requires RunOk(requests, i, h0, h, replies, objects, held) && i < |requests| && requests[i].Get?
    requires Sized(sizes, objects, held) && Intact(requests, i, objects, held, ram.bytes)
    modifies caches, h.owner.Keys, ram
    ensures Valid(caches, h') && RunOk(requests, i + 1, h0, h', replies + [reply], objects + [o], held')
    ensures Sized(sizes + [bytes], objects + [o], held') && Intact(requests, i + 1, objects + [o], held', ram.bytes)
    ensures forall s | s in h'.owner && s !in h.owner :: fresh(s)
    ensures held' == if Served(requests[i].size) then held + {i} else held
  {
    ghost var before := ram.bytes;
    reply, bytes, held', o, h' := GetStep(caches, words, requests, i, ram, h0, h, replies, objects, held);
    if reply.Some? {
      RunApart(caches, h', h0.live, replies + [reply], objects + [o], held');
    }
    IntactAnswer(requests, i, h0.live, h'.live, replies, sizes, objects, held, reply, bytes, o, before, ram.bytes);
  }

  // The memory after a store by a holder. A store into what is not held, or behind its end, is left out.
  method StoreByte(requests: seq<Request>, i: nat, ram: Ram, replies: seq<Option<nat>>, sizes: seq<nat>,
                   ghost objects: seq<Option<Object>>, held: set<nat>, ghost live0: set<Object>,
                   ghost live: set<Object>)
    requires i < |requests| && requests[i].Store? && |objects| == i && HeldApart(objects, held)
    requires Kept(live0, live, replies, objects, held) && Sized(sizes, objects, held)
    requires Intact(requests, i, objects, held, ram.bytes)
    modifies ram
    ensures Intact(requests, i + 1, objects + [None], held, ram.bytes)
  {
    var n := requests[i].n;
    if n in held && requests[i].at < sizes[n] {
      IntactStore(requests, i, objects, held, ram.bytes);
      ram.bytes := ram.bytes[replies[n].value + requests[i].at := requests[i].value];
    } else {
      IntactSame(requests, i, objects, held, held, ram.bytes);
    }
  }

  method StoreStep(caches: seq<Cache>, requests: seq<Request>, i: nat, ram: Ram, ghost h0: Ledger, ghost h: Ledger,
                   replies: seq<Option<nat>>, sizes: seq<nat>, ghost objects: seq<Option<Object>>, held: set<nat>)
    requires i < |requests| && requests[i].Store? && Valid(caches, h)
    requires RunOk(requests, i, h0, h, replies, objects, held) && Sized(sizes, objects, held)
    requires Intact(requests, i, objects, held, ram.bytes)
    modifies ram
    ensures Valid(caches, h) == old(Valid(caches, h))
    ensures RunOk(requests, i + 1, h0, h, replies + [None], objects + [None], held)
    ensures Sized(sizes + [0], objects + [None], held)
    ensures Intact(requests, i + 1, objects + [None], held, ram.bytes)
  {
    RunApart(caches, h, h0.live, replies, objects, held);
    RunNone(requests, i, h0, h, replies, objects, held);
    StoreByte(requests, i, ram, replies, sizes, objects, held, h0.live, h.live);
  }

  method DropIntact(caches: seq<Cache>, requests: seq<Request>, i: nat, ghost ram: Ram, ghost h0: Ledger,
                    ghost h: Ledger, replies: seq<Option<nat>>, ghost sizes: seq<nat>,
                    ghost objects: seq<Option<Object>>, held: set<nat>)
    returns (held': set<nat>, ghost h': Ledger)
    requires Valid(caches, h)
    requires RunOk(requests, i, h0, h, replies, objects, held) && i < |requests| && requests[i].Drop?
    requires Sized(sizes, objects, held) && Intact(requests, i, objects, held, ram.bytes)
    modifies h.owner.Keys`bits, h.owner.Keys`available
    ensures Valid(caches, h') && RunOk(requests, i + 1, h0, h', replies + [None], objects + [None], held')
    ensures Sized(sizes + [0], objects + [None], held') && Intact(requests, i + 1, objects + [None], held', ram.bytes)
    ensures h'.owner == h.owner && held' == held - {requests[i].n}
  {
    held', h' := DropStep(caches, requests, i, h0, h, replies, objects, held);
    IntactSame(requests, i, objects, held, held', ram.bytes);
  }

  // The requests whose answer is held after the first i: those served and not given back since.
  ghost function HeldAfter(requests: seq<Request>, i: nat): set<nat>
    requires i <= |requests|
  {
    if i == 0 then {}
    else
      var before := HeldAfter(requests, i - 1);
      match requests[i - 1]
      case Get(size, _) => if Served(size) then before + {i - 1} else before
      case Store(_, _, _) => before
      case Drop(n) => before - {n}
  }

  // One step of a run.
  method Step(caches: seq<Cache>, words: seq<bv64>, requests: seq<Request>, i: nat, ram: Ram, ghost h0: Ledger,
              ghost h: Ledger, replies: seq<Option<nat>>, sizes: seq<nat>, ghost objects: seq<Option<Object>>,
              held: set<nat>)
    returns (reply: Option<nat>, bytes: nat, held': set<nat>, ghost o: Option<Object>, ghost h': Ledger)
    requires Listed(caches, words) && Valid(caches, h) && Supplied(requests, h0.owner.Keys) && i < |requests|
    requires RunOk(requests, i, h0, h, replies, objects, held)
    requires Sized(sizes, objects, held) && Intact(requests, i, objects, held, ram.bytes)
    requires held == HeldAfter(requests, i)
    modifies caches, h.owner.Keys, ram
    ensures Valid(caches, h') && RunOk(requests, i + 1, h0, h', replies + [reply], objects + [o], held')
    ensures Sized(sizes + [bytes], objects + [o], held') && Intact(requests, i + 1, objects + [o], held', ram.bytes)
    ensures forall s | s in h'.owner && s !in h.owner :: fresh(s)
    ensures held' == HeldAfter(requests, i + 1)
  {
    reply, bytes, held', o, h' := None, 0, held, None, h;
    match requests[i] {
      case Get(_, _) =>
        reply, bytes, held', o, h' := GetIntact(caches, words, requests, i, ram, h0, h, replies, sizes, objects, held);
      case Store(_, _, _) =>
        StoreStep(caches, requests, i, ram, h0, h, replies, sizes, objects, held);
      case Drop(_) =>
        held', h' := DropIntact(caches, requests, i, ram, h0, h, replies, sizes, objects, held);
    }
  }

  // Any run of requests, returns, and stores by the holders: each request is answered as alloc promises, at the end
  // exactly the objects not given back are live, and each has the bytes its holder stored and zeroes elsewhere.
  method Serve(caches: seq<Cache>, words: seq<bv64>, requests: seq<Request>, ram: Ram, ghost h0: Ledger)
    returns (replies: seq<Option<nat>>, held: set<nat>, ghost objects: seq<Option<Object>>, ghost h: Ledger)
    requires Listed(caches, words) && Valid(caches, h0) && Supplied(requests, h0.owner.Keys)
    modifies caches, h0.owner.Keys, ram
    ensures Valid(caches, h) && RunOk(requests, |requests|, h0, h, replies, objects, held)
    ensures held == HeldAfter(requests, |requests|) && Intact(requests, |requests|, objects, held, ram.bytes)
  {
    replies, held, objects, h := [], {}, [], h0;
    var sizes: seq<nat> := [];
    assert HeldObjects(objects, held) == {};
    for i := 0 to |requests|
      invariant Valid(caches, h) && RunOk(requests, i, h0, h, replies, objects, held)
      invariant Sized(sizes, objects, held) && Intact(requests, i, objects, held, ram.bytes)
      invariant held == HeldAfter(requests, i)
      invariant forall s | s in h.owner && s !in h0.owner :: fresh(s)
    {
      var reply, bytes;
      ghost var o;
      reply, bytes, held, o, h := Step(caches, words, requests, i, ram, h0, h, replies, sizes, objects, held);
      replies, sizes, objects := replies + [reply], sizes + [bytes], objects + [o];
    }
  }

  lemma FromEmpty(requests: seq<Request>, h0: Ledger, h: Ledger, replies: seq<Option<nat>>,
                  objects: seq<Option<Object>>, held: set<nat>)
    requires RunOk(requests, |requests|, h0, h, replies, objects, held) && h0.live == {}
    ensures h.live == HeldObjects(objects, held) && |replies| == |objects| == |requests|
    ensures forall j | 0 <= j < |requests| :: AnswerOk(requests[j], replies[j], objects[j])
    ensures forall n | n in held :: n < |objects| && objects[n].Some? && replies[n] == Some(Address(objects[n].value))
  {}

  // Every run from boot. Nothing is live at its start, so exactly what is held is live at its end.
  method ServeFromBoot(pages: seq<nat>, requests: seq<Request>, ram: Ram)
    returns (caches: seq<Cache>, replies: seq<Option<nat>>, held: set<nat>, ghost objects: seq<Option<Object>>,
             ghost h: Ledger)
    requires BootPages(pages) && Offered(pages, requests)
    modifies ram
    ensures Valid(caches, h) && held == HeldAfter(requests, |requests|) && h.live == HeldObjects(objects, held)
    ensures |replies| == |objects| == |requests|
    ensures forall j | 0 <= j < |requests| :: AnswerOk(requests[j], replies[j], objects[j])
    ensures forall n | n in held ::
      n < |objects| && objects[n].Some? && replies[n] == Some(Address(objects[n].value))
    ensures HeldApart(objects, held) && Intact(requests, |requests|, objects, held, ram.bytes)
  {
    var words;
    ghost var h0;
    caches, words, h0 := Boot(pages);
    OfferedSupplied(pages, requests, h0.owner.Keys);
    assert forall k | 0 <= k < |caches| :: caches[k] in caches;
    replies, held, objects, h := Serve(caches, words, requests, ram, h0);
    RunApart(caches, h, h0.live, replies, objects, held);
    FromEmpty(requests, h0, h, replies, objects, held);
  }

  // The pages offered to a run are aligned, and apart from each other and from those used at boot.
  ghost predicate Offered(pages: seq<nat>, requests: seq<Request>)
    requires BootPages(pages)
  {
    && (forall i | 0 <= i < |requests| && requests[i].Get? :: requests[i].page % PAGE == 0)
    && (forall i, j | 0 <= i < j < |requests| && requests[i].Get? && requests[j].Get? ::
          PageRunsApart(requests[i].page, requests[j].page))
    && forall i, k | 0 <= i < |requests| && requests[i].Get? && 0 <= k < |pages| ::
         BootApart(pages[k], PagesPerSlab(SIZES[k]), requests[i].page)
  }

  ghost predicate BootApart(base: nat, n: nat, page: nat) {
    base + n * PAGE <= page || page + MOST_PAGES * PAGE <= base
  }

  lemma OfferedSupplied(pages: seq<nat>, requests: seq<Request>, all: set<Slab>)
    requires BootPages(pages) && Offered(pages, requests) && forall s | s in all :: Booted(pages, |pages|, s)
    ensures Supplied(requests, all)
  {
    forall i | 0 <= i < |requests| && requests[i].Get?
      ensures PagesFree(all, requests[i].page, MOST_PAGES)
    {
      forall s | s in all
        ensures s.base + s.pages * PAGE <= requests[i].page || requests[i].page + MOST_PAGES * PAGE <= s.base
      {
        assert Booted(pages, |pages|, s);
        var k :| 0 <= k < |pages| && k < |SIZES| && s.base == pages[k] && s.pages == PagesPerSlab(SIZES[k]);
        assert BootApart(pages[k], PagesPerSlab(SIZES[k]), requests[i].page);
      }
    }
  }

  lemma StillMade(requests: seq<Request>, i: nat, all0: set<Slab>, all: set<Slab>, s: Slab)
    requires i < |requests| && s !in all0
    requires s in all ==> Made(requests, i, s)
    requires s !in all ==> requests[i].Get? && s.base == requests[i].page && s.pages <= MOST_PAGES
    ensures Made(requests, i + 1, s)
  {}

  lemma WalkFinds(words: seq<bv64>, r: bv64, k: nat)
    requires |words| == |SIZES| && k <= |words|
    requires forall j | 0 <= j < |words| :: IsClass(words[j]) && ClassIndex(words[j]) == |SIZES| - 1 - j
    requires (forall j | 0 <= j < k :: words[j] != r) && (k < |words| ==> words[k] == r)
    ensures k < |words| <==> IsClass(r)
    ensures k < |words| ==> SIZES[|SIZES| - 1 - k] == SIZES[ClassIndex(r)]
  {
    if IsClass(r) {
      var at := |SIZES| - 1 - ClassIndex(r);
      SameClass(words[at], r);
    }
  }

  // The rounding at the start of alloc.
  method RoundRequest(size: bv64) returns (r: bv64)
    requires size != 0
    ensures r == RoundSize(size) && (IsClass(r) <==> Served(size))
    ensures size <= 16383 ==> size < r && (r > 32 ==> (r >> 1) <= size)
  {
    ServedHasClass(size);
    if size <= 16383 { SmallRequests(size); }
    r := Pow2Roundup(size + 1);
    if r <= 16 {
      r := 32;
    }
  }

  lemma SameClass(r: bv64, q: bv64)
    requires IsClass(r) && IsClass(q) && ClassIndex(r) == ClassIndex(q)
    ensures r == q
  {}
}
