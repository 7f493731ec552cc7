// kernel/mm/slab.c: fixed-size objects in slabs of pages, on three doubly linked lists per cache.
module Slabs {
  import opened Common
  import opened Arith

  const OBJECTS_PER_SLAB: nat := 256
  const SLAB_HEADER: nat := 56     // sizeof(struct slab)
  const CACHE_RECORD: nat := 72    // sizeof(struct cache)
  const BITMAP: nat := 32          // OBJECTS_PER_SLAB / 8

  // ----- layout -----

  function PagesPerSlab(objectSize: nat): nat {
    DivRoundup(objectSize * OBJECTS_PER_SLAB + SLAB_HEADER + BITMAP, PAGE)
  }

  // Where cache_alloc_slab puts the objects of a slab whose pages start at `base`.
  function BufferOf(base: nat): nat {
    AlignUp(base + SLAB_HEADER + BITMAP, 16)
  }

  // How many objects the first slab of a cache is given, next to the embedded cache record.
  function RootObjects(objectSize: nat): int {
    OBJECTS_PER_SLAB - DivRoundup(objectSize, CACHE_RECORD)
  }

  lemma SlabSlack(objectSize: nat)
    ensures PagesPerSlab(objectSize) * PAGE >= objectSize * OBJECTS_PER_SLAB + 256
  {
    var n := objectSize * OBJECTS_PER_SLAB + SLAB_HEADER + BITMAP;
    AlignUpLeast(n, PAGE);
    assert PagesPerSlab(objectSize) * PAGE == AlignUp(n, PAGE);
    var p := PagesPerSlab(objectSize);
    // both sides of the gap are multiples of 256
    assert p * PAGE == 256 * (16 * p) && objectSize * OBJECTS_PER_SLAB == 256 * objectSize;
  }

  // A slab takes as few pages as hold header, bitmap and objects.
  lemma FewestPages(objectSize: nat)
    ensures var need := objectSize * OBJECTS_PER_SLAB + SLAB_HEADER + BITMAP;
      (PagesPerSlab(objectSize) - 1) * PAGE < need <= PagesPerSlab(objectSize) * PAGE
  {
    AlignUpLeast(objectSize * OBJECTS_PER_SLAB + SLAB_HEADER + BITMAP, PAGE);
  }

  // The first slab gives up the least n objects with n * sizeof(struct cache) at or above the object size.
  lemma RootGivesUp(objectSize: nat)
    ensures var n := OBJECTS_PER_SLAB - RootObjects(objectSize);
      (n - 1) * CACHE_RECORD < objectSize <= n * CACHE_RECORD
  {
    AlignUpLeast(objectSize, CACHE_RECORD);
  }

  lemma BufferOffset(base: nat)
    requires base % PAGE == 0
    ensures BufferOf(base) == base + 96
  {
    var q := base / PAGE;
    assert base + SLAB_HEADER + BITMAP + 15 == 16 * (256 * q + 6) + 7;
    DivUnique(base + SLAB_HEADER + BITMAP + 15, 16, 256 * q + 6, 7);
  }

  // For every object size, both layouts stay inside the slab's pages and clear of what precedes the objects.
  lemma LayoutFits(objectSize: nat, base: nat)
    requires base % PAGE == 0
    ensures var buffer := BufferOf(base);
      && base + SLAB_HEADER + BITMAP <= buffer
      && buffer + objectSize * OBJECTS_PER_SLAB <= base + PagesPerSlab(objectSize) * PAGE
      && (0 <= RootObjects(objectSize) ==>
            buffer + CACHE_RECORD + objectSize * RootObjects(objectSize) <= base + PagesPerSlab(objectSize) * PAGE)
  {
    BufferOffset(base);
    SlabSlack(objectSize);
    if 0 <= RootObjects(objectSize) {
      MulMono(objectSize, RootObjects(objectSize), OBJECTS_PER_SLAB);
    }
  }

  // ----- free objects -----

  function Clear(bits: seq<bool>, n: nat): nat
    requires n <= |bits|
  {
    if n == 0 then 0 else Clear(bits, n - 1) + if bits[n - 1] then 0 else 1
  }

  lemma {:induction false} ClearUpdate(bits: seq<bool>, n: nat, i: nat, v: bool)
    requires n <= |bits| && i < |bits|
    ensures Clear(bits[i := v], n) ==
      Clear(bits, n) + if i < n && bits[i] != v then (if v then -1 else 1) else 0
  {
    if n > 0 { ClearUpdate(bits, n - 1, i, v); }
  }

  lemma {:induction false} ClearBound(bits: seq<bool>, n: nat)
    requires n <= |bits|
    ensures Clear(bits, n) <= n
    ensures Clear(bits, n) == n ==> forall i | 0 <= i < n :: !bits[i]
    ensures Clear(bits, n) == 0 ==> forall i | 0 <= i < n :: bits[i]
    ensures (forall i | 0 <= i < n :: bits[i]) ==> Clear(bits, n) == 0
    ensures (forall i | 0 <= i < n :: !bits[i]) ==> Clear(bits, n) == n
  {
    if n > 0 { ClearBound(bits, n - 1); }
  }

  // ----- object addresses -----

  function ObjectAt(buffer: nat, size: nat, i: nat): nat { buffer + i * size }

  lemma Distribute(i: nat, j: nat, size: nat)
    requires i < j
    ensures (i + 1) * size <= j * size
  {
    assert (j - i - 1) * size >= 0;
  }

  // The index computed by slab_free_object is the object's, and the object lies in the slab's range.
  lemma IndexOfObject(buffer: nat, size: nat, total: nat, i: nat)
    requires size > 0 && i < total
    ensures buffer <= ObjectAt(buffer, size, i)
    ensures ObjectAt(buffer, size, i) + size <= buffer + size * total
    ensures (ObjectAt(buffer, size, i) - buffer) / size == i
  {
    MultipleMod(i, size);
    if i + 1 < total { Distribute(i, total, size); }
  }

  // ----- slabs -----

  class Slab {
    const base: nat        // first byte of the slab's pages
    const pages: nat
    const buffer: nat
    const objectSize: nat  // slab->cache->object_size
    const total: nat       // total_objects
    var available: nat     // available_objects
    var bits: seq<bool>    // the bitmap as BIT_TEST sees it
    var next: Slab?
    var last: Slab?

    // The objects lie inside the slab's pages behind header and bitmap, and available counts the clear bits.
    ghost predicate Valid()
      reads this`available, this`bits
    {
      && objectSize > 0 && 2 <= total <= |bits|
      && base + SLAB_HEADER + BITMAP <= buffer && buffer + objectSize * total <= base + pages * PAGE
      && available == Clear(bits, total)
    }

    // cache_alloc_slab for a cache that already exists.
    constructor (base: nat, objectSize: nat)
      requires base % PAGE == 0 && objectSize > 0
      ensures Valid() && available == total && next == null && last == null
      ensures this.base == base && this.objectSize == objectSize && pages == PagesPerSlab(objectSize)
      ensures buffer == BufferOf(base) && total == OBJECTS_PER_SLAB
      ensures forall j | 0 <= j < |bits| :: !bits[j]
    {
      this.base, this.objectSize, pages := base, objectSize, PagesPerSlab(objectSize);
      buffer := BufferOf(base);
      total := OBJECTS_PER_SLAB;
      available := OBJECTS_PER_SLAB;
      bits := seq(OBJECTS_PER_SLAB, _ => false);
      next, last := null, null;
      new;
      LayoutFits(objectSize, base);
      ClearBound(bits, total);
    }

    // The first slab of a cache, as slab_cache_create leaves it: the cache record sits before the objects.
    constructor Root(base: nat, objectSize: nat)
      requires base % PAGE == 0 && objectSize > 0 && RootObjects(objectSize) >= 2
      ensures Valid() && available == total && next == null && last == null
      ensures this.base == base && this.objectSize == objectSize && pages == PagesPerSlab(objectSize)
      ensures buffer == BufferOf(base) + CACHE_RECORD && total == RootObjects(objectSize)
      ensures forall j | 0 <= j < |bits| :: !bits[j]
    {
      this.base, this.objectSize, pages := base, objectSize, PagesPerSlab(objectSize);
      buffer := BufferOf(base) + CACHE_RECORD;
      total := RootObjects(objectSize);
      available := RootObjects(objectSize);
      bits := seq(OBJECTS_PER_SLAB, _ => false);
      next, last := null, null;
      new;
      LayoutFits(objectSize, base);
      ClearBound(bits, total);
    }

    // slab_alloc: takes the first clear bit below total; NULL when there is none.
    method Alloc() returns (i: Option<nat>)
      requires Valid()
      modifies this`available, this`bits
      ensures Valid()
      ensures i.None? <==> old(available) == 0
      ensures i.None? ==> bits == old(bits) && available == old(available)
      ensures i.Some? ==>
        && i.value < total && !old(bits)[i.value] && bits == old(bits)[i.value := true]
        && available == old(available) - 1
        && forall j | 0 <= j < i.value :: old(bits)[j]
    {
      ClearBound(bits, total);
      var k := 0;
      while k < total
        invariant k <= total && bits == old(bits) && available == old(available)
        invariant forall j | 0 <= j < k :: bits[j]
      {
        if !bits[k] {
          ClearUpdate(bits, total, k, true);
          bits := bits[k := true];
          available := available - 1;
          return Some(k);
        }
        k := k + 1;
      }
      return None;
    }

    // The body of slab_free_object for an object of this slab.
    method Release(obj: nat)
      requires Valid() && buffer <= obj < buffer + objectSize * total
      requires (obj - buffer) / objectSize < total && bits[(obj - buffer) / objectSize]
      modifies this`available, this`bits
      ensures Valid() && bits == old(bits)[(obj - buffer) / objectSize := false] && available == old(available) + 1
    {
      var index := (obj - buffer) / objectSize;
      ClearUpdate(bits, total, index, false);
      bits := bits[index := false];
      available := available + 1;
    }
  }

  // ----- doubly linked lists -----

  ghost predicate Distinct(s: seq<Slab>) {
    forall i, j | 0 <= i < j < |s| :: s[i] != s[j]
  }

  function NextIn(s: seq<Slab>, i: nat): Slab? { if i + 1 < |s| then s[i + 1] else null }
  function LastIn(s: seq<Slab>, i: nat): Slab? { if 0 < i <= |s| then s[i - 1] else null }

  ghost predicate NodeOk(s: seq<Slab>, i: nat)
    requires i < |s|
    reads (set x | x in s)`next, (set x | x in s)`last
  {
    s[i].next == NextIn(s, i) && s[i].last == LastIn(s, i)
  }

  // `head` is the head of the acyclic, consistently double-linked list `s`.
  ghost predicate Linked(s: seq<Slab>, head: Slab?)
    reads (set x | x in s)`next, (set x | x in s)`last
  {
    && Distinct(s)
    && head == (if s == [] then null else s[0])
    && forall i | 0 <= i < |s| :: NodeOk(s, i)
  }

  function Remove(s: seq<Slab>, k: nat): seq<Slab>
    requires k < |s|
  {
    s[..k] + s[k + 1..]
  }

  // The unlinking half of cache_move_slab.
  method Unlink(srcHead: Slab?, src: Slab, ghost srcs: seq<Slab>, ghost k: nat) returns (srcHead': Slab?)
    requires Linked(srcs, srcHead) && k < |srcs| && srcs[k] == src
    modifies (set x | x in srcs)`next, (set x | x in srcs)`last
    ensures Linked(Remove(srcs, k), srcHead')
  {
    srcHead' := srcHead;
    assert NodeOk(srcs, k);
    if src.next != null {
      src.next.last := src.last;
    }
    if src.last != null {
      src.last.next := src.next;
    }
    if srcHead == src {
      srcHead' := src.next;
    }
    ghost var rest := Remove(srcs, k);
    RemoveAt(srcs, k);
    forall i | 0 <= i < |rest|
      ensures NodeOk(rest, i)
    {
      ghost var j := if i < k then i else i + 1;
      assert old(NodeOk(srcs, j));
    }
  }

  lemma RemoveAt(s: seq<Slab>, k: nat)
    requires k < |s|
    ensures forall i | 0 <= i < |s| - 1 :: Remove(s, k)[i] == s[if i < k then i else i + 1]
    ensures |Remove(s, k)| == |s| - 1
  {}

  // The inserting half of cache_move_slab.
  method PushFront(destHead: Slab?, src: Slab, ghost dest: seq<Slab>) returns (destHead': Slab?)
    requires Linked(dest, destHead) && src !in dest
    modifies (set x | x in dest)`last, src`next, src`last
    ensures destHead' == src && Linked([src] + dest, destHead')
  {
    if destHead == null {
      src.last := null;
      src.next := null;
      return src;
    }
    src.next := destHead;
    src.last := null;
    destHead.last := src;
    ghost var all := [src] + dest;
    forall i | 0 <= i < |all|
      ensures NodeOk(all, i)
    {
      if i > 0 { assert old(NodeOk(dest, i - 1)); }
    }
    return src;
  }

  // cache_move_slab: takes `src` out of its list and puts it in front of the other; a no-op if the source
  // list is empty.
  method MoveSlab(destHead: Slab?, srcHead: Slab?, src: Slab, ghost dest: seq<Slab>, ghost srcs: seq<Slab>,
                  ghost k: nat)
    returns (ret: int, destHead': Slab?, srcHead': Slab?)
    requires Linked(dest, destHead) && Linked(srcs, srcHead)
    requires forall x | x in dest :: x !in srcs
    requires srcHead != null ==> k < |srcs| && srcs[k] == src
    modifies (set x | x in dest)`last, (set x | x in srcs)`next, (set x | x in srcs)`last
    ensures srcHead == null ==>
      ret == -1 && destHead' == destHead && srcHead' == srcHead && Linked(dest, destHead) && Linked(srcs, srcHead)
    ensures srcHead != null ==>
      ret == 0 && Linked([src] + dest, destHead') && Linked(Remove(srcs, k), srcHead')
  {
    if srcHead == null {
      return -1, destHead, srcHead;
    }
    srcHead' := Unlink(srcHead, src, srcs, k);
    RemoveAt(srcs, k);
    assert src !in Remove(srcs, k);
    destHead' := PushFront(destHead, src, dest);
    ret := 0;
  }

  // ----- memory -----

  class Ram {
    var bytes: map<nat, bv8>

    // memset8
    method Memset8(dst: nat, data: bv8, n: nat)
      modifies this
      ensures forall a | dst <= a < dst + n :: a in bytes && bytes[a] == data
      ensures forall a | !(dst <= a < dst + n) :: a in bytes <==> a in old(bytes)
      ensures forall a | !(dst <= a < dst + n) && a in bytes :: bytes[a] == old(bytes)[a]
    {
      for i := 0 to n
        invariant forall a | dst <= a < dst + i :: a in bytes && bytes[a] == data
        invariant forall a | !(dst <= a < dst + i) :: a in bytes <==> a in old(bytes)
        invariant forall a | !(dst <= a < dst + i) && a in bytes :: bytes[a] == old(bytes)[a]
      {
        bytes := bytes[dst + i := data];
      }
    }
  }

  // ----- caches -----

  predicate PagesApart(s: Slab, t: Slab) {
    s.base + s.pages * PAGE <= t.base || t.base + t.pages * PAGE <= s.base
  }

  ghost predicate InRange(s: Slab, obj: nat) {
    s.buffer <= obj < s.buffer + s.objectSize * s.total
  }

  // The index slab_free_object computes for an address in the slab's range.
  ghost function IndexIn(s: Slab, obj: nat): nat {
    if s.objectSize == 0 || obj < s.buffer then 0 else (obj - s.buffer) / s.objectSize
  }

  ghost predicate AllApart(slabs: set<Slab>) {
    forall s, t {:trigger PagesApart(s, t)} | s in slabs && t in slabs && s != t :: PagesApart(s, t)
  }

  // The pages [base, base + n) belong to no slab of the set.
  ghost predicate PagesFree(slabs: set<Slab>, base: nat, n: nat) {
    forall s | s in slabs :: s.base + s.pages * PAGE <= base || base + n * PAGE <= s.base
  }

  // b is a, or a with slabs put before it.
  ghost predicate Ends(b: seq<Slab>, a: seq<Slab>) {
    |a| <= |b| && b[|b| - |a|..] == a
  }

  class Cache {
    const objectSize: nat
    var empty: Slab?
    var partial: Slab?
    var full: Slab?
    ghost var emptyList: seq<Slab>
    ghost var partialList: seq<Slab>
    ghost var fullList: seq<Slab>
    ghost var slabs: set<Slab>
    ghost const root: Slab  // the first slab, whose pages hold this record

    // The three lists partition the cache's slabs; empty and partial together hold at most one.
    ghost predicate Shape()
      reads this, slabs
    {
      && slabs == (set x | x in emptyList + partialList + fullList)
      && Linked(emptyList, empty) && Linked(partialList, partial) && Linked(fullList, full)
      && (forall x | x in emptyList :: x !in partialList && x !in fullList)
      && (forall x | x in partialList :: x !in fullList)
      && |emptyList| + |partialList| <= 1
    }

    // The record stays where slab_cache_create put it, before the objects of the first slab.
    ghost predicate Rooted()
      reads this
    {
      root in slabs && root.buffer == Record() + CACHE_RECORD
    }

    ghost function Record(): nat { BufferOf(root.base) }

    ghost predicate Valid()
      reads this, slabs
    {
      && Shape() && Rooted()
      && AllApart(slabs)
      && (forall s | s in slabs :: s.Valid() && s.objectSize == objectSize)
      && (forall s | s in emptyList :: s.available == s.total)
      && (forall s | s in partialList :: s.available > 0)
    }

    // slab_cache_create, on the pages that pmm_alloc returned.
    constructor (objectSize: nat, base: nat)
      requires base % PAGE == 0 && objectSize > 0 && RootObjects(objectSize) >= 2
      ensures Valid() && this.objectSize == objectSize && fresh(slabs)
      ensures emptyList == [root] && partialList == [] && fullList == []
      ensures root.base == base && root.pages == PagesPerSlab(objectSize)
      ensures forall j | 0 <= j < |root.bits| :: !root.bits[j]
    {
      var slab := new Slab.Root(base, objectSize);
      this.objectSize, root := objectSize, slab;
      empty, partial, full := slab, null, null;
      emptyList, partialList, fullList, slabs := [slab], [], [], {slab};
      new;
      assert NodeOk(emptyList, 0);
    }

    // cache_alloc_slab, when the cache has neither an empty nor a partial slab.
    method AllocSlab(page: nat) returns (slab: Slab)
      requires Valid() && emptyList == [] && partialList == []
      requires page % PAGE == 0 && objectSize > 0 && PagesFree(slabs, page, PagesPerSlab(objectSize))
      modifies this
      ensures Valid() && fresh(slab) && emptyList == [slab] && partialList == [] && fullList == old(fullList)
      ensures slab.base == page && slab.pages == PagesPerSlab(objectSize)
      ensures forall j | 0 <= j < |slab.bits| :: !slab.bits[j]
    {
      slab := new Slab(page, objectSize);
      empty := slab;
      emptyList, slabs := [slab], slabs + {slab};
      assert NodeOk(emptyList, 0);
      ClearBound(slab.bits, slab.total);
    }

    // The choice at the start of cache_alloc_obj.
    method PickSlab(page: nat) returns (slab: Slab)
      requires Valid()
      requires page % PAGE == 0 && objectSize > 0 && PagesFree(slabs, page, PagesPerSlab(objectSize))
      modifies this
      ensures Valid() && slab in slabs && slab.available > 0 && slab !in fullList && fullList == old(fullList)
      ensures slab in emptyList + partialList
      ensures if slab in old(slabs) then unchanged(this) else fresh(slab) && slabs == old(slabs) + {slab}
      ensures slab !in old(slabs) ==> slab.base == page && slab.pages == PagesPerSlab(objectSize)
      ensures slab !in old(slabs) ==> forall j | 0 <= j < |slab.bits| :: !slab.bits[j]
    {
      if partial != null {
        slab := partial;
        assert slab == partialList[0];
      } else if empty != null {
        slab := empty;
        assert slab == emptyList[0];
      } else {
        slab := AllocSlab(page);
      }
    }

    lemma OnlyOpenSlab(slab: Slab)
      requires Shape() && slab in emptyList + partialList
      ensures (emptyList == [slab] && partialList == []) || (emptyList == [] && partialList == [slab])
    {
      if slab in emptyList {
        assert |emptyList| == 1 && emptyList[0] == slab;
      } else {
        assert |partialList| == 1 && partialList[0] == slab;
      }
    }

    // Everything in Valid() that does not depend on which list a slab is on.
    ghost predicate Stocked()
      reads this, slabs
    {
      && Rooted() && AllApart(slabs)
      && (forall s | s in slabs :: s.Valid() && s.objectSize == objectSize)
    }

    // cache_move_slab(&cache->slab_full, &cache->slab_partial, slab)
    method MoveToFull(slab: Slab)
      requires Shape() && Stocked() && emptyList == [] && partialList == [slab]
      modifies this, slabs`next, slabs`last
      ensures Valid() && slabs == old(slabs) && fullList == [slab] + old(fullList)
    {
      var ret;
      ret, full, partial := MoveSlab(full, partial, slab, fullList, partialList, 0);
      fullList, partialList := [slab] + fullList, [];
      assert Remove([slab], 0) == [];
    }

    // cache_move_slab(&cache->slab_partial, &cache->slab_empty, slab)
    method MoveToPartial(slab: Slab)
      requires Shape() && Stocked() && slab.available > 0
      requires (emptyList == [slab] && partialList == []) || (emptyList == [] && partialList == [slab])
      modifies this, slabs`next, slabs`last
      ensures Valid() && slabs == old(slabs) && fullList == old(fullList)
    {
      if empty == null {
        var ret, _, _ := MoveSlab(partial, empty, slab, partialList, emptyList, 0);
      } else {
        MoveFirst(slab);
      }
    }

    // The same from the empty list.
    method MoveFirst(slab: Slab)
      requires Shape() && Stocked() && slab.available > 0 && emptyList == [slab] && partialList == []
      modifies this, slabs`next, slabs`last
      ensures Valid() && slabs == old(slabs) && fullList == old(fullList)
    {
      var ret;
      ret, partial, empty := MoveSlab(partial, empty, slab, partialList, emptyList, 0);
      assert Remove(emptyList, 0) == [] && [slab] + partialList == [slab];
      assert Linked(fullList, full);
      partialList, emptyList := [slab], [];
    }

    // The list moves at the end of cache_alloc_obj.
    method Settle(slab: Slab)
      requires Shape() && Stocked() && slab in emptyList + partialList
      requires slab in emptyList ==> slab.available == slab.total - 1
      modifies this, slabs`next, slabs`last
      ensures Valid() && slabs == old(slabs) && Ends(fullList, old(fullList))
    {
      OnlyOpenSlab(slab);
      assert slab in slabs;
      if slab.available == 0 {
        MoveToFull(slab);
      } else if slab.available == slab.total - 1 {
        MoveToPartial(slab);
      }
    }

    // slab_alloc on the chosen slab, the zeroing and the list moves.
    method AllocFrom(slab: Slab, ram: Ram) returns (i: nat)
      requires Valid() && slab in emptyList + partialList
      modifies this, slabs, ram
      ensures Valid() && slabs == old(slabs) && Ends(fullList, old(fullList))
      ensures i < slab.total <= |old(slab.bits)| && !old(slab.bits)[i] && slab.bits == old(slab.bits)[i := true]
      ensures forall s | s in slabs && s != slab :: s.bits == old(s.bits) && s.available == old(s.available)
      ensures Zeroed(ram.bytes, old(ram.bytes), ObjectAt(slab.buffer, objectSize, i), objectSize)
    {
      assert slab in slabs;
      var index := slab.Alloc();
      i := index.value;
      ram.Memset8(slab.buffer + i * objectSize, 0, objectSize);
      Settle(slab);
    }

    // cache_alloc_obj: never comes back empty as long as pmm_alloc has pages. The object is zeroed and is
    // bit `i` of `slab`, which was clear; no other bit changes.
    method AllocObj(page: nat, ram: Ram) returns (obj: nat, ghost slab: Slab, ghost i: nat)
      requires Valid()
      requires page % PAGE == 0 && objectSize > 0 && PagesFree(slabs, page, PagesPerSlab(objectSize))
      modifies this, slabs, ram
      ensures Valid()
      ensures slab in slabs && i < slab.total && obj == ObjectAt(slab.buffer, objectSize, i)
      ensures if slab in old(slabs) then slabs == old(slabs) else fresh(slab) && slabs == old(slabs) + {slab}
      ensures slab !in old(slabs) ==> slab.base == page && slab.pages == PagesPerSlab(objectSize)
      ensures slab.bits[i] && slab !in old(fullList)
      ensures Ends(fullList, old(fullList))
      ensures slab in old(slabs) ==> !old(slab.bits)[i] && slab.bits == old(slab.bits)[i := true]
      ensures slab !in old(slabs) ==> forall j | 0 <= j < |slab.bits| && j != i :: !slab.bits[j]
      ensures forall s | s in old(slabs) && s != slab :: s.bits == old(s.bits) && s.available == old(s.available)
      ensures Zeroed(ram.bytes, old(ram.bytes), obj, objectSize)
    {
      var s := PickSlab(page);
      ghost var before, fulls := s.bits, fullList;
      var index := AllocFrom(s, ram);
      slab, i := s, index;
      obj := s.buffer + index * objectSize;
      assert slab.bits == before[i := true] && Ends(fullList, fulls);
    }

    // slab_free_object(cache->slab_partial, obj)
    method FreeInPartial(obj: nat) returns (found: bool, ghost slab: Slab?)
      requires Valid() && forall s | s in slabs :: LiveOrElsewhere(s, obj)
      modifies slabs`bits, slabs`available
      ensures Valid()
      ensures !found ==> forall s | s in partialList :: !InRange(s, obj)
      ensures !found ==> forall s | s in slabs :: s.bits == old(s.bits) && s.available == old(s.available)
      ensures found ==> slab != null && slab in slabs && InRange(slab, obj)
      ensures found ==>
        var i := IndexIn(slab, obj);
        && i < |old(slab.bits)| && slab.bits == old(slab.bits)[i := false] && slab.available == old(slab.available) + 1
        && forall s | s in slabs && s != slab :: s.bits == old(s.bits) && s.available == old(s.available)
    {
      ghost var k;
      found, k := FreeInList(partial, obj, partialList);
      slab := if found then partialList[k] else null;
    }

    // slab_free_object(cache->slab_full, obj)
    method FreeInFull(obj: nat) returns (found: bool, ghost slab: Slab?)
      requires Valid() && forall s | s in slabs :: LiveOrElsewhere(s, obj)
      modifies slabs`bits, slabs`available
      ensures Valid()
      ensures !found ==> forall s | s in fullList :: !InRange(s, obj)
      ensures !found ==> forall s | s in slabs :: s.bits == old(s.bits) && s.available == old(s.available)
      ensures found ==> slab != null && slab in slabs && InRange(slab, obj)
      ensures found ==>
        var i := IndexIn(slab, obj);
        && i < |old(slab.bits)| && slab.bits == old(slab.bits)[i := false] && slab.available == old(slab.available) + 1
        && forall s | s in slabs && s != slab :: s.bits == old(s.bits) && s.available == old(s.available)
    {
      ghost var k;
      found, k := FreeInList(full, obj, fullList);
      slab := if found then fullList[k] else null;
    }

    // cache_free_object on an address that is a live object of the cache or not in it at all: a live object's
    // bit, and nothing else, is cleared; the lists stay as they are.
    method FreeObj(obj: nat) returns (found: bool, ghost slab: Slab?)
      requires forall s | s in emptyList :: !InRange(s, obj)
      requires Valid() && forall s | s in slabs :: LiveOrElsewhere(s, obj)
      modifies slabs`bits, slabs`available
      ensures Valid()
      ensures !found ==> forall s | s in slabs :: !InRange(s, obj)
      ensures !found ==> forall s | s in slabs :: s.bits == old(s.bits) && s.available == old(s.available)
      ensures found ==> slab != null && slab in slabs && InRange(slab, obj)
      ensures found ==>
        var i := IndexIn(slab, obj);
        && i < |old(slab.bits)| && slab.bits == old(slab.bits)[i := false] && slab.available == old(slab.available) + 1
        && forall s | s in slabs && s != slab :: s.bits == old(s.bits) && s.available == old(s.available)
    {
      found, slab := FreeInPartial(obj);
      if !found {
        found, slab := FreeInFull(obj);
      }
    }

    // Of all the cache's slabs only the owner's range holds the object, and the owner is not on the empty list.
    lemma OwnerOf(obj: nat, slab: Slab, i: nat)
      requires Valid() && slab in slabs && i < slab.total && slab.bits[i]
      requires obj == ObjectAt(slab.buffer, objectSize, i)
      ensures InRange(slab, obj) && IndexIn(slab, obj) == i
      ensures forall s | s in slabs && s != slab :: !InRange(s, obj)
      ensures forall s | s in slabs :: LiveOrElsewhere(s, obj)
      ensures slab !in emptyList
    {
      IndexOfObject(slab.buffer, objectSize, slab.total, i);
      ClearBound(slab.bits, slab.total);
      forall s | s in slabs && s != slab
        ensures !InRange(s, obj)
      {
        assert PagesApart(slab, s);
      }
    }
  }

  lemma SlotsDisjoint(buffer: nat, size: nat, i: nat, j: nat, a: nat)
    requires ObjectAt(buffer, size, i) <= a < ObjectAt(buffer, size, i) + size
    requires ObjectAt(buffer, size, j) <= a < ObjectAt(buffer, size, j) + size
    ensures i == j
  {
    if i < j { Distribute(i, j, size); }
    if j < i { Distribute(j, i, size); }
    assert (i + 1) * size == i * size + size && (j + 1) * size == j * size + size;
  }

  lemma ByteInPages(s: Slab, i: nat, a: nat)
    requires s.Valid() && i < s.total
    requires ObjectAt(s.buffer, s.objectSize, i) <= a < ObjectAt(s.buffer, s.objectSize, i) + s.objectSize
    ensures s.base + SLAB_HEADER + BITMAP <= s.buffer <= a < s.base + s.pages * PAGE
  {
    IndexOfObject(s.buffer, s.objectSize, s.total, i);
  }

  // Objects are disjoint, inside their slab's pages, and clear of header and bitmap: two objects that share a byte are
  // the same bit of the same slab.
  lemma ObjectsDisjoint(slabs: set<Slab>, s: Slab, i: nat, t: Slab, j: nat, a: nat)
    requires AllApart(slabs) && s in slabs && t in slabs && s.Valid() && t.Valid() && i < s.total && j < t.total
    requires ObjectAt(s.buffer, s.objectSize, i) <= a < ObjectAt(s.buffer, s.objectSize, i) + s.objectSize
    requires ObjectAt(t.buffer, t.objectSize, j) <= a < ObjectAt(t.buffer, t.objectSize, j) + t.objectSize
    ensures s == t && i == j
    ensures s.base + SLAB_HEADER + BITMAP <= a < s.base + s.pages * PAGE
  {
    ByteInPages(s, i, a);
    ByteInPages(t, j, a);
    assert s != t ==> PagesApart(s, t);
    if s == t { SlotsDisjoint(s.buffer, s.objectSize, i, j, a); }
  }

  // No object lies in the record of a cache.
  lemma ClearOfRecord(c: Cache, s: Slab, i: nat, a: nat)
    requires c.Valid() && s.Valid() && i < s.total && (s != c.root ==> PagesApart(s, c.root))
    requires ObjectAt(s.buffer, s.objectSize, i) <= a < ObjectAt(s.buffer, s.objectSize, i) + s.objectSize
    ensures !(c.Record() <= a < c.Record() + CACHE_RECORD)
  {
    ByteInPages(s, i, a);
    BehindHeader(c.root.base);
  }

  lemma BehindHeader(base: nat)
    ensures base <= BufferOf(base)
  {
    AlignUpLeast(base + SLAB_HEADER + BITMAP, 16);
  }

  // `obj` is a live object of `s`, or no address of `s` at all.
  ghost predicate LiveOrElsewhere(s: Slab, obj: nat)
    reads s`bits
  {
    InRange(s, obj) ==> IndexIn(s, obj) < |s.bits| && s.bits[IndexIn(s, obj)]
  }

  lemma IndexBelow(obj: nat, buffer: nat, size: nat, total: nat)
    requires size > 0 && buffer <= obj < buffer + size * total
    ensures (obj - buffer) / size < total
  {
    var q := (obj - buffer) / size;
    assert obj - buffer == size * q + (obj - buffer) % size;
    if q >= total { MulMono(size, total, q); }
  }

  lemma MulMono(c: nat, x: nat, y: nat)
    requires x <= y
    ensures c * x <= c * y
  {}

  // slab_free_object: frees the object in the first slab of the list whose range holds it.
  method FreeInList(head: Slab?, obj: nat, ghost list: seq<Slab>) returns (found: bool, ghost k: nat)
    requires Linked(list, head)
    requires forall s | s in list :: s.Valid() && LiveOrElsewhere(s, obj)
    modifies (set x | x in list)`bits, (set x | x in list)`available
    ensures forall s | s in list :: s.Valid()
    ensures !found ==>
      forall s | s in list :: !InRange(s, obj) && s.bits == old(s.bits) && s.available == old(s.available)
    ensures found ==> k < |list| && InRange(list[k], obj)
    ensures found ==>
      var s := list[k]; var i := IndexIn(s, obj);
      && i < s.total <= |old(s.bits)| && old(s.bits)[i]
      && s.bits == old(s.bits)[i := false] && s.available == old(s.available) + 1
    ensures found ==> forall s | s in list && s != list[k] :: s.bits == old(s.bits) && s.available == old(s.available)
  {
    var slab := head;
    k := 0;
    while slab != null
      invariant k <= |list| && slab == (if k < |list| then list[k] else null)
      invariant forall j | 0 <= j < k :: !InRange(list[j], obj)
      invariant forall s | s in list :: s.bits == old(s.bits) && s.available == old(s.available)
      decreases |list| - k
    {
      if slab.buffer <= obj && obj < slab.buffer + slab.objectSize * slab.total {
        IndexBelow(obj, slab.buffer, slab.objectSize, slab.total);
        slab.Release(obj);
        return true, k;
      }
      assert NodeOk(list, k);
      slab := slab.next;
      k := k + 1;
    }
    found := false;
  }

  // `now` is `before` with [dst, dst + n) set to zero.
  ghost predicate Zeroed(now: map<nat, bv8>, before: map<nat, bv8>, dst: nat, n: nat) {
    && (forall a | dst <= a < dst + n :: a in now && now[a] == 0)
    && (forall a | !(dst <= a < dst + n) :: a in now <==> a in before)
    && (forall a | !(dst <= a < dst + n) && a in now && a in before :: now[a] == before[a])
  }
}
