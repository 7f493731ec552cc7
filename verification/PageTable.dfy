// pml4_map_page and pml4_unmap_page as in-place updates of a page table, specified on the flat map.
module PageTables {
  import opened Common
  import opened RadixTree

  // A present 2 MiB entry covers `v`.
  predicate Covered(m: Memory, root: Table, v: Indices) {
    var t := Walk2(m, root, v);
    t.Some? && var e := Read(m, Word(t.value, v.i2)); Present(e) && Huge(e)
  }

  // The first 4 KiB of the 2 MiB page, taken for a table.
  function HugeTarget(m: Memory, root: Table, v: Indices): Table
    requires Covered(m, root, v)
  {
    Target(Read(m, Word(Walk2(m, root, v).value, v.i2)))
  }

  // The 2 MiB page begins with one of the tables, as the kernel's direct map of physical memory can.
  ghost predicate Aliased(m: Memory, root: Table, owner: map<Table, Path>, v: Indices) {
    Covered(m, root, v) && HugeTarget(m, root, v) in owner
  }

  // The page lies in a 2 MiB page that is mapped with this entry.
  ghost predicate CoveredBy(m: Memory, root: Table, x: Indices, e: bv64) {
    Covered(m, root, x) && HugeTarget(m, root, x) == Target(e)
  }

  // Then a 4 KiB request writes into that table: if it is a leaf table, some other page is remapped.
  lemma AliasedWrite(m: Memory, root: Table, owner: map<Table, Path>, v: Indices, y: Indices, e: bv64)
    requires Wf(m, root, owner) && Aliased(m, root, owner, v) && owner[HugeTarget(m, root, v)].L1?
    requires LowestLevel(m, root, y) == Some(Word(HugeTarget(m, root, v), v.i1))
    ensures var m' := m[Word(HugeTarget(m, root, v), v.i1) := e];
      && Flat(m', root, y) == IfPresent(e)
      && forall x | x != y :: Flat(m', root, x) == Flat(m, root, x)
  {
    LeafWriteAll(m, root, owner, y, Word(HugeTarget(m, root, v), v.i1), e);
  }

  lemma LeafWriteAll(m: Memory, root: Table, owner: map<Table, Path>, y: Indices, w: Word, e: bv64)
    requires Wf(m, root, owner) && w.table in owner && owner[w.table].L1? && LowestLevel(m, root, y) == Some(w)
    ensures Flat(m[w := e], root, y) == IfPresent(e)
    ensures forall x | x != y :: Flat(m[w := e], root, x) == Flat(m, root, x)
  {
    forall x
      ensures Flat(m[w := e], root, x) == if x == y then IfPresent(e) else Flat(m, root, x)
    {
      LeafWriteFlat(m, root, owner, y, w, e, x);
    }
  }

  // What one call may do to page `x`: nothing, to its entry or to where its entry is.
  ghost predicate Untouched(m: Memory, m': Memory, root: Table, x: Indices) {
    NoPageMoves(m, m', root, x)
  }

  lemma UntouchedTwice(m: Memory, m': Memory, m'': Memory, root: Table, x: Indices)
    requires Untouched(m, m', root, x) && Untouched(m', m'', root, x)
    ensures Untouched(m, m'', root, x)
  {}

  // No entry on the way to any page is replaced.
  ghost predicate AllKept(m: Memory, m': Memory, root: Table) { forall x :: TrailKept(m, m', root, x) }

  lemma KeptTwice(m: Memory, m': Memory, m'': Memory, root: Table)
    requires AllKept(m, m', root) && AllKept(m', m'', root)
    ensures AllKept(m, m'', root)
  {
    forall x
      ensures TrailKept(m, m'', root, x)
    {
      assert TrailKept(m, m', root, x) && TrailKept(m', m'', root, x);
    }
  }

  lemma LinkAllKept(m: Memory, root: Table, w: Word, e: bv64)
    requires !Present(Read(m, w))
    ensures AllKept(m, m[w := e], root)
  {
    var m' := m[w := e];
    forall x
      ensures TrailKept(m, m', root, x)
    {
      LinkKept(m, root, w, e, x);
    }
  }

  lemma LeafAllKept(m: Memory, root: Table, owner: map<Table, Path>, w: Word, e: bv64)
    requires Wf(m, root, owner) && w.table in owner && owner[w.table].L1?
    ensures AllKept(m, m[w := e], root)
  {
    var m' := m[w := e];
    forall x
      ensures TrailKept(m, m', root, x)
    {
      LeafTrail(m, root, owner, w, e, x);
    }
  }

  // A link made for a mapping with these flags: open to user code exactly if the mapping is, and to execution.
  predicate NewLink(e: bv64, flags: bv64) { (User(e) <==> User(flags)) && !NoExec(e) }

  // The way after the first two levels, and after all three: what was there stays, and what is new is such a link.
  predicate BuiltUpper(a: Trail, b: Trail, flags: bv64) {
    && (if Present(a.e4) then b.e4 == a.e4 else NewLink(b.e4, flags))
    && (if Present(a.e3) then b.e3 == a.e3 else NewLink(b.e3, flags))
  }

  // The third level alone.
  predicate BuiltLast(a: Trail, b: Trail, flags: bv64) {
    && b.e4 == a.e4 && b.e3 == a.e3 && !Huge(b.e2)
    && (if Present(a.e2) then b.e2 == a.e2 else NewLink(b.e2, flags))
  }

  // A 2 MiB entry at the end of the way of its own pages, and no other way changed.
  ghost predicate HugeSet(m: Memory, m': Memory, root: Table, v: Indices, x: Indices, e: bv64) {
    var a, b := TrailOf(m, root, x), TrailOf(m', root, x);
    if SameHuge(v, x) then b == Trail(a.e4, a.e3, e) else b == a
  }

  predicate Built(a: Trail, b: Trail, flags: bv64) {
    BuiltUpper(a, b, flags) && (if Present(a.e2) then b.e2 == a.e2 else NewLink(b.e2, flags))
  }

  // The tables there already are open to user code, and so are those to be made.
  predicate AdmitsUpper(a: Trail, user: bool) {
    (if Present(a.e4) then User(a.e4) else user) && (if Present(a.e3) then User(a.e3) else user)
  }

  predicate Admits(a: Trail, user: bool) { AdmitsUpper(a, user) && (if Present(a.e2) then User(a.e2) else user) }

  // The tables there already are open to execution; those to be made always are.
  predicate RunsUpper(a: Trail) { (Present(a.e4) ==> !NoExec(a.e4)) && (Present(a.e3) ==> !NoExec(a.e3)) }

  predicate Runs(a: Trail) { RunsUpper(a) && (Present(a.e2) ==> !NoExec(a.e2)) }

  // Who may use and run a page after it was mapped with entry e.
  ghost predicate AccessSet(m: Memory, m': Memory, root: Table, v: Indices, x: Indices, e: bv64, flags: bv64) {
    var a := TrailOf(m, root, v);
    if Huge(flags) then
      && (MayUse(m', root, x) <==> User(e) && AdmitsUpper(a, User(flags)))
      && (MayRun(m', root, x) <==> !NoExec(e) && RunsUpper(a))
    else
      && (MayUse(m', root, x) <==> User(e) && Admits(a, User(flags)))
      && (MayRun(m', root, x) <==> !NoExec(e) && Runs(a))
  }

  // The same for all pages: the one mapped has the access its flags and the way to it give, the others keep theirs.
  ghost predicate SmallAccess(m: Memory, m': Memory, root: Table, v: Indices, e: bv64, flags: bv64) {
    && AccessSet(m, m', root, v, v, e, flags) && Built(TrailOf(m, root, v), TrailOf(m', root, v), flags)
    && forall x | x != v :: SameAccess(m, m', root, x)
  }

  ghost predicate HugeAccess(m: Memory, m': Memory, root: Table, v: Indices, e: bv64, flags: bv64) {
    && (forall x | SameHuge(v, x) :: AccessSet(m, m', root, v, x, e, flags))
    && forall x | !SameHuge(v, x) :: SameAccess(m, m', root, x)
  }

  lemma SmallSet(m: Memory, m': Memory, root: Table, v: Indices, e: bv64, flags: bv64)
    requires !Huge(flags) && Flat(m', root, v) == Some(e) && Built(TrailOf(m, root, v), TrailOf(m', root, v), flags)
    requires !Huge(TrailOf(m', root, v).e2)
    ensures AccessSet(m, m', root, v, v, e, flags)
  {
    AccessDecided(m', root, v);
  }

  lemma HugeSetAt(m: Memory, m': Memory, root: Table, v: Indices, x: Indices, e: bv64, flags: bv64)
    requires Huge(flags) && Huge(e) && Flat(m', root, x) == Some(e)
    requires BuiltUpper(TrailOf(m, root, v), TrailOf(m', root, x), flags) && TrailOf(m', root, x).e2 == e
    ensures AccessSet(m, m', root, v, x, e, flags)
  {
    AccessDecided(m', root, x);
  }

  // The three levels of a 4 KiB mapping together.
  lemma SmallAccessAll(m: Memory, m1: Memory, m': Memory, root: Table, v: Indices, e: bv64, flags: bv64)
    requires !Huge(flags) && AllKept(m, m1, root) && AllKept(m1, m', root) && Flat(m', root, v) == Some(e)
    requires (forall x :: Untouched(m, m1, root, x)) && forall x | x != v :: Untouched(m1, m', root, x)
    requires BuiltUpper(TrailOf(m, root, v), TrailOf(m1, root, v), flags)
    requires BuiltLast(TrailOf(m1, root, v), TrailOf(m', root, v), flags)
    requires !Present(TrailOf(m, root, v).e2) ==> !Present(TrailOf(m1, root, v).e2)
    ensures SmallAccess(m, m', root, v, e, flags)
  {
    KeptTwice(m, m1, m', root);
    assert TrailKept(m, m1, root, v);
    SmallSet(m, m', root, v, e, flags);
    forall x | x != v
      ensures SameAccess(m, m', root, x)
    {
      assert Untouched(m, m1, root, x) && Untouched(m1, m', root, x) && TrailKept(m, m', root, x);
      KeptAccess(m, m', root, x);
    }
  }

  // The two levels and the entry of a 2 MiB mapping together.
  lemma HugeAccessAll(m: Memory, m1: Memory, m': Memory, root: Table, v: Indices, e: bv64, flags: bv64)
    requires Huge(flags) && Huge(e) && AllKept(m, m1, root) && Walk2(m1, root, v).Some?
    requires BuiltUpper(TrailOf(m, root, v), TrailOf(m1, root, v), flags)
    requires forall x :: Untouched(m, m1, root, x) && HugeSet(m1, m', root, v, x, e)
    requires forall x | SameHuge(v, x) :: Flat(m', root, x) == Some(e)
    requires forall x | !SameHuge(v, x) :: Untouched(m1, m', root, x)
    ensures HugeAccess(m, m', root, v, e, flags)
  {
    forall x | SameHuge(v, x)
      ensures AccessSet(m, m', root, v, x, e, flags)
    {
      assert HugeSet(m1, m', root, v, x, e) && HugeSet(m1, m', root, v, v, e);
      assert TrailOf(m1, root, x) == TrailOf(m1, root, v);
      HugeSetAt(m, m', root, v, x, e, flags);
    }
    forall x | !SameHuge(v, x)
      ensures SameAccess(m, m', root, x)
    {
      assert HugeSet(m1, m', root, v, x, e) && TrailKept(m, m1, root, x);
      assert Untouched(m, m1, root, x) && Untouched(m1, m', root, x);
      KeptAccess(m, m', root, x);
    }
  }

  // Pages that were fit to become tables still are, but for those used.
  ghost predicate FreshKept(m: Memory, m': Memory, owner: map<Table, Path>, owner': map<Table, Path>,
                            used: set<Table>) {
    forall g | g !in used && Fresh(m, owner, g) :: Fresh(m', owner', g)
  }

  lemma FreshWrite(m: Memory, owner: map<Table, Path>, w: Word, e: bv64)
    requires w.table in owner
    ensures FreshKept(m, m[w := e], owner, owner, {})
  {
    forall g | Fresh(m, owner, g)
      ensures Fresh(m[w := e], owner, g)
    {
      assert forall i :: Read(m[w := e], Word(g, i)) == Read(m, Word(g, i));
    }
  }

  lemma FreshTwice(m: Memory, m': Memory, m'': Memory, owner: map<Table, Path>, owner': map<Table, Path>,
                   owner'': map<Table, Path>, used: set<Table>, used': set<Table>)
    requires FreshKept(m, m', owner, owner', used) && FreshKept(m', m'', owner', owner'', used')
    ensures FreshKept(m, m'', owner, owner'', used + used')
  {}

  // What clearing P of the entry `w` of page `v` means for page `x`.
  ghost predicate ClearedAt(m: Memory, m': Memory, root: Table, v: Indices, huge: bool, x: Indices) {
    && LowestLevel(m', root, x) == LowestLevel(m, root, x)
    && Flat(m', root, x) == if (if huge then SameHuge(v, x) else x == v) then None else Flat(m, root, x)
  }

  ghost predicate Cleared(m: Memory, m': Memory, root: Table, v: Indices, huge: bool) {
    forall x :: ClearedAt(m, m', root, v, huge, x)
  }

  // The unmap of the range of `size` bytes around page `v`: only P of its one entry is cleared.
  ghost predicate Unmapped(m: Memory, m': Memory, root: Table, v: Indices, size: nat) {
    match LowestLevel(m, root, v)
    case None => size == 0 && m' == m
    case Some(w) =>
      && m' == m[w := NotPresent(Read(m, w))]
      && ((size == 0x1000 && Cleared(m, m', root, v, false)) || (size == 0x200000 && Cleared(m, m', root, v, true)))
  }

  // A write outside the tables, into some data page, is invisible to the walk.
  lemma WriteOutside(m: Memory, root: Table, owner: map<Table, Path>, w: Word, e: bv64, x: Indices)
    requires Wf(m, root, owner) && w.table !in owner
    ensures Wf(m[w := e], root, owner)
    ensures LowestLevel(m[w := e], root, x) == LowestLevel(m, root, x)
    ensures Flat(m[w := e], root, x) == Flat(m, root, x)
  {
    forall t, i | t in owner
      ensures EntryOk(owner, owner[t], i, Read(m[w := e], Word(t, i)))
    {
      assert EntryOk(owner, owner[t], i, Read(m, Word(t, i)));
    }
    WalkOwned(m, root, owner, x);
    if LowestLevel(m, root, x).Some? { LeafOwned(m, root, owner, x); }
    TailSame(m, root, w, e, x);
  }

  lemma LeafBits(paddr: bv64, flags: bv64)
    requires Present(flags)
    ensures Present(paddr | flags)
    ensures Huge(flags) ==> Huge(paddr | flags)
  {}

  lemma ClearBits(e: bv64)
    ensures !Present(NotPresent(e))
    ensures Huge(NotPresent(e)) == Huge(e)
  {}

  // All 512 pages of a 2 MiB entry share its word.
  lemma HugeWalk(m: Memory, root: Table, v: Indices, x: Indices)
    requires Walk2(m, root, v).Some? && Huge(Read(m, Word(Walk2(m, root, v).value, v.i2))) && SameHuge(v, x)
    ensures LowestLevel(m, root, x) == Some(Word(Walk2(m, root, v).value, v.i2))
  {}

  lemma ClearHugeAt(m: Memory, root: Table, owner: map<Table, Path>, v: Indices, pml2: Table, e: bv64, x: Indices)
    requires Wf(m, root, owner) && Walk2(m, root, v) == Some(pml2) && Huge(Read(m, Word(pml2, v.i2)))
    requires Huge(e) && !Present(e)
    ensures ClearedAt(m, m[Word(pml2, v.i2) := e], root, v, true, x)
  {
    HugeWriteFlat(m, root, owner, v, pml2, e, x);
    HugeWriteWalk(m, root, owner, v, pml2, e, x);
    if SameHuge(v, x) { HugeWalk(m, root, v, x); }
  }

  lemma ClearHuge(m: Memory, root: Table, owner: map<Table, Path>, v: Indices, pml2: Table, e: bv64)
    requires Wf(m, root, owner) && Walk2(m, root, v) == Some(pml2) && Huge(Read(m, Word(pml2, v.i2)))
    requires Huge(e) && !Present(e)
    ensures Wf(m[Word(pml2, v.i2) := e], root, owner)
    ensures Cleared(m, m[Word(pml2, v.i2) := e], root, v, true)
    ensures LowestLevel(m, root, v) == Some(Word(pml2, v.i2))
  {
    WalkOwned(m, root, owner, v);
    LeafWriteWf(m, root, owner, Word(pml2, v.i2), e);
    HugeWalk(m, root, v, v);
    var m' := m[Word(pml2, v.i2) := e];
    forall x
      ensures ClearedAt(m, m', root, v, true, x)
    {
      ClearHugeAt(m, root, owner, v, pml2, e, x);
    }
  }

  lemma ClearLeaf(m: Memory, root: Table, owner: map<Table, Path>, v: Indices, w: Word, e: bv64)
    requires Wf(m, root, owner) && LowestLevel(m, root, v) == Some(w)
    requires w.table in owner && owner[w.table].L1? && !Present(e)
    ensures Wf(m[w := e], root, owner)
    ensures Cleared(m, m[w := e], root, v, false)
  {
    LeafWriteWf(m, root, owner, w, e);
    var m' := m[w := e];
    forall x
      ensures ClearedAt(m, m', root, v, false, x)
    {
      LeafWriteWalk(m, root, owner, w, e, x);
      LeafWriteFlat(m, root, owner, v, w, e, x);
    }
  }

  lemma LeafIsL1(m: Memory, root: Table, owner: map<Table, Path>, v: Indices, w: Word)
    requires Wf(m, root, owner) && LowestLevel(m, root, v) == Some(w)
    requires Walk2(m, root, v).Some? && !Huge(Read(m, Word(Walk2(m, root, v).value, v.i2)))
    ensures w.table in owner && owner[w.table].L1?
  {
    WalkOwned(m, root, owner, v);
    var t := Walk2(m, root, v).value;
    assert EntryOk(owner, owner[t], v.i2, Read(m, Word(t, v.i2)));
  }

  class PageTable {
    var mem: Memory
    const root: Table
    ghost var owner: map<Table, Path>

    // The table before any mapping: one zeroed page.
    constructor (m: Memory, top: Table)
      requires Fresh(m, map[], top)
      ensures Valid() && root == top && mem == m && owner == map[top := Top]
      ensures forall x :: Flat(mem, root, x) == None
    {
      mem, root, owner := m, top, map[top := Top];
      new;
      assert forall i :: Read(mem, Word(root, i)) == 0;
    }

    ghost predicate Valid()
      reads this
    {
      Wf(mem, root, owner)
    }

    // if((table[i] & P) == 0) table[i] = pmm_alloc(1, 1) | (flags & MASK) | RW;
    // and the table the entry then points to.
    method EnsureTable(t: Table, i: bv64, flags: bv64, f: Table) returns (child: Table)
      requires Valid() && t in owner && !owner[t].L1? && (owner[t].Top? ==> t == root)
      requires Fresh(mem, owner, f) && FlagsFit(flags) && Present(flags)
      requires owner[t].L2? && Present(Read(mem, Word(t, i))) ==> !Huge(Read(mem, Word(t, i)))
      modifies this
      ensures Valid()
      ensures forall u | u in old(owner) :: u in owner && owner[u] == old(owner)[u]
      ensures child in owner && owner[child] == Below(owner[t], i)
      ensures Present(Read(mem, Word(t, i))) && Target(Read(mem, Word(t, i))) == child
      ensures owner[t].L2? ==> !Huge(Read(mem, Word(t, i)))
      ensures forall w | w != Word(t, i) :: Read(mem, w) == Read(old(mem), w)
      ensures FreshKept(old(mem), mem, old(owner), owner, {f})
      ensures forall x :: Untouched(old(mem), mem, root, x)
      ensures AllKept(old(mem), mem, root)
      ensures if Present(Read(old(mem), Word(t, i))) then mem == old(mem) && owner == old(owner)
              else child == f && NewLink(Read(mem, Word(t, i)), flags)
    {
      var w := Word(t, i);
      if !Present(Read(mem, w)) {
        LinkBits(f, flags);
        LinkWf(mem, root, owner, t, i, f, flags);
        LinkAllKept(mem, root, w, Link(f, flags));
        ghost var linked := mem[w := Link(f, flags)];
        forall x
          ensures Untouched(mem, linked, root, x)
        {
          LinkFlat(mem, root, owner, t, i, f, Link(f, flags), x);
        }
        owner := owner[f := Below(owner[t], i)];
        mem := mem[w := Link(f, flags)];
      } else {
        assert EntryOk(owner, owner[t], i, Read(mem, w));
      }
      child := Target(Read(mem, w));
    }

    // The first two levels of pml4_map_page.
    method Descend(v: Indices, flags: bv64, f3: Table, f2: Table) returns (pml2: Table)
      requires Valid() && Present(flags) && FlagsFit(flags)
      requires Fresh(mem, owner, f3) && Fresh(mem, owner, f2) && f3 != f2
      modifies this
      ensures Valid() && Walk2(mem, root, v) == Some(pml2)
      ensures pml2 in owner && owner[pml2] == L2(v.i4, v.i3)
      ensures forall x :: Untouched(old(mem), mem, root, x)
      ensures FreshKept(old(mem), mem, old(owner), owner, {f3, f2})
      ensures if Walk2(old(mem), root, v).Some? then mem == old(mem) && owner == old(owner)
              else Read(mem, Word(pml2, v.i2)) == 0
      ensures AllKept(old(mem), mem, root)
      ensures BuiltUpper(TrailOf(old(mem), root, v), TrailOf(mem, root, v), flags)
      ensures TrailOf(mem, root, v).e2 == Read(mem, Word(pml2, v.i2))
    {
      ghost var m0, o0 := mem, owner;
      var pml3 := EnsureTable(root, v.i4, flags, f3);
      ghost var m1, o1 := mem, owner;
      pml2 := EnsureTable(pml3, v.i3, flags, f2);
      FreshTwice(m0, m1, mem, o0, o1, owner, {f3}, {f2});
      KeptTwice(m0, m1, mem, root);
      assert pml3 != root && Read(mem, Word(root, v.i4)) == Read(m1, Word(root, v.i4));
      assert {f3} + {f2} == {f3, f2};
      forall x
        ensures Untouched(m0, mem, root, x)
      {
        UntouchedTwice(m0, m1, mem, root, x);
      }
    }

    // The 2 MiB branch of pml4_map_page.
    method MapHuge(v: Indices, pml2: Table, e: bv64)
      requires Valid() && Walk2(mem, root, v) == Some(pml2) && Present(e) && Huge(e)
      modifies this
      ensures Valid()
      ensures forall x | SameHuge(v, x) :: Flat(mem, root, x) == Some(e)
      ensures forall x | !SameHuge(v, x) :: Untouched(old(mem), mem, root, x)
      ensures forall x | SameHuge(v, x) :: CoveredBy(mem, root, x, e)
      ensures forall x :: HugeSet(old(mem), mem, root, v, x, e)
      ensures owner == old(owner) && FreshKept(old(mem), mem, owner, owner, {})
    {
      var w := Word(pml2, v.i2);
      WalkOwned(mem, root, owner, v);
      FreshWrite(mem, owner, w, e);
      LeafWriteWf(mem, root, owner, w, e);
      ghost var m := mem[w := e];
      forall x
        ensures SameHuge(v, x) ==> Flat(m, root, x) == Some(e) && CoveredBy(m, root, x, e)
        ensures !SameHuge(v, x) ==> Untouched(mem, m, root, x)
        ensures HugeSet(mem, m, root, v, x, e)
      {
        HugeTrail(mem, root, owner, v, pml2, e, x);
        HugeWriteFlat(mem, root, owner, v, pml2, e, x);
        HugeWriteWalk(mem, root, owner, v, pml2, e, x);
        HugeWriteUpper(mem, root, owner, v, pml2, e, x);
      }
      mem := mem[w := e];
    }

    // The last level of pml4_map_page, when no 2 MiB entry is in the way.
    method MapLeaf(v: Indices, w: Word, e: bv64)
      requires Valid() && LowestLevel(mem, root, v) == Some(w) && w.table in owner && owner[w.table].L1?
      modifies this
      ensures Valid()
      ensures LowestLevel(mem, root, v) == Some(w) && Flat(mem, root, v) == IfPresent(e) && Read(mem, w) == e
      ensures forall x | x != v :: Untouched(old(mem), mem, root, x)
      ensures owner == old(owner) && FreshKept(old(mem), mem, owner, owner, {})
      ensures AllKept(old(mem), mem, root) && TrailOf(mem, root, v) == TrailOf(old(mem), root, v)
    {
      FreshWrite(mem, owner, w, e);
      LeafAllKept(mem, root, owner, w, e);
      LeafTrail(mem, root, owner, w, e, v);
      LeafWriteWf(mem, root, owner, w, e);
      ghost var m := mem[w := e];
      forall x
        ensures LowestLevel(m, root, x) == LowestLevel(mem, root, x)
        ensures Flat(m, root, x) == if x == v then IfPresent(e) else Flat(mem, root, x)
      {
        LeafWriteWalk(mem, root, owner, w, e, x);
        LeafWriteFlat(mem, root, owner, v, w, e, x);
      }
      mem := mem[w := e];
    }

    // What pml4_map_page does under a present 2 MiB entry: it takes the 2 MiB page for a leaf table.
    method Scribble(v: Indices, pml2: Table, e: bv64) returns (entry: Option<Word>)
      requires Valid() && Walk2(mem, root, v) == Some(pml2) && Covered(mem, root, v)
      modifies this`mem
      ensures entry == Some(Word(HugeTarget(old(mem), root, v), v.i1))
      ensures mem == old(mem)[Word(HugeTarget(old(mem), root, v), v.i1) := e]
      ensures HugeTarget(old(mem), root, v) !in owner ==> Valid() && forall x :: Untouched(old(mem), mem, root, x)
    {
      var w := Word(Target(Read(mem, Word(pml2, v.i2))), v.i1);
      ghost var m := mem[w := e];
      if w.table !in owner {
        WriteOutside(mem, root, owner, w, e, v);
        forall x
          ensures Untouched(mem, m, root, x)
        {
          WriteOutside(mem, root, owner, w, e, x);
        }
      }
      mem := mem[w := e];
      entry := Some(w);
    }

    // The 4 KiB branch of pml4_map_page, when no 2 MiB entry is in the way.
    method MapSmall(v: Indices, pml2: Table, e: bv64, flags: bv64, f1: Table) returns (entry: Option<Word>)
      requires Valid() && Walk2(mem, root, v) == Some(pml2) && !Covered(mem, root, v)
      requires pml2 in owner && owner[pml2] == L2(v.i4, v.i3)
      requires Present(flags) && FlagsFit(flags) && Fresh(mem, owner, f1) && Present(e)
      modifies this
      ensures Valid()
      ensures LowestLevel(mem, root, v) == entry && Flat(mem, root, v) == Some(e)
      ensures forall x | x != v :: Untouched(old(mem), mem, root, x)
      ensures FreshKept(old(mem), mem, old(owner), owner, {f1}) && AllKept(old(mem), mem, root)
      ensures BuiltLast(TrailOf(old(mem), root, v), TrailOf(mem, root, v), flags)
    {
      ghost var m0, o0 := mem, owner;
      WalkOwned(mem, root, owner, v);
      var pml1 := EnsureTable(pml2, v.i2, flags, f1);
      ghost var m1 := mem;
      assert Walk2(mem, root, v) == Some(pml2);
      entry := Some(Word(pml1, v.i1));
      assert LowestLevel(mem, root, v) == entry;
      assert TrailOf(mem, root, v).e2 == Read(mem, Word(pml2, v.i2));
      MapLeaf(v, entry.value, e);
      KeptTwice(m0, m1, mem, root);
      FreshTwice(m0, m1, mem, o0, owner, owner, {f1}, {});
      forall x | x != v
        ensures Untouched(m0, mem, root, x)
      {
        UntouchedTwice(m0, m1, mem, root, x);
      }
    }

    // pml4_map_page after the indices are computed. f3, f2 and f1 are the pages pmm_alloc would return for
    // missing tables. A 4 KiB mapping under a present 2 MiB entry is written into the 2 MiB page itself, and
    // maps nothing unless that page begins with one of the tables.
    method MapAt(v: Indices, e: bv64, flags: bv64, f3: Table, f2: Table, f1: Table) returns (entry: Option<Word>)
      requires Valid() && Present(flags) && FlagsFit(flags) && Present(e) && (Huge(flags) ==> Huge(e))
      requires Fresh(mem, owner, f3) && Fresh(mem, owner, f2) && Fresh(mem, owner, f1) && f3 != f2 && f2 != f1
      requires f3 != f1
      modifies this
      ensures Huge(flags) || !Aliased(old(mem), root, old(owner), v) ==> Valid()
      ensures Huge(flags) ==>
        && entry == None
        && (forall x | SameHuge(v, x) :: Flat(mem, root, x) == Some(e) && CoveredBy(mem, root, x, e))
        && (forall x | !SameHuge(v, x) :: Untouched(old(mem), mem, root, x))
        && HugeAccess(old(mem), mem, root, v, e, flags)
      ensures !Huge(flags) && !Covered(old(mem), root, v) ==>
        && LowestLevel(mem, root, v) == entry
        && Flat(mem, root, v) == Some(e)
        && (forall x | x != v :: Untouched(old(mem), mem, root, x))
        && SmallAccess(old(mem), mem, root, v, e, flags)
      ensures !Huge(flags) && Covered(old(mem), root, v) ==>
        && entry == Some(Word(HugeTarget(old(mem), root, v), v.i1)) && mem == old(mem)[entry.value := e]
        && (!Aliased(old(mem), root, old(owner), v) ==> forall x :: Untouched(old(mem), mem, root, x))
      ensures Huge(flags) || !Covered(old(mem), root, v) ==>
        FreshKept(old(mem), mem, old(owner), owner, {f3, f2, f1})
    {
      ghost var m0 := mem;
      var pml2 := Descend(v, flags, f3, f2);
      ghost var m1 := mem;
      if Huge(flags) {
        MapHuge(v, pml2, e);
        HugeAccessAll(m0, m1, mem, root, v, e, flags);
        entry := None;
      } else if Present(Read(mem, Word(pml2, v.i2))) && Huge(Read(mem, Word(pml2, v.i2))) {
        entry := Scribble(v, pml2, e);
      } else {
        entry := MapSmall(v, pml2, e, flags, f1);
        SmallAccessAll(m0, m1, mem, root, v, e, flags);
      }
      forall x | Untouched(m1, mem, root, x)
        ensures Untouched(m0, mem, root, x)
      {
        UntouchedTwice(m0, m1, mem, root, x);
      }
    }

    // pml4_map_page: afterwards the page (or the 2 MiB range) of vaddr maps to paddr | flags and every other
    // page is as before, exactly unless a present 2 MiB entry covers a 4 KiB request.
    method MapPage(vaddr: bv64, paddr: bv64, flags: bv64, f3: Table, f2: Table, f1: Table) returns (entry: Option<Word>)
      requires Valid() && Present(flags) && FlagsFit(flags)
      requires Fresh(mem, owner, f3) && Fresh(mem, owner, f2) && Fresh(mem, owner, f1) && f3 != f2 && f2 != f1
      requires f3 != f1
      modifies this
      ensures Huge(flags) || !Aliased(old(mem), root, old(owner), ComputeIndices(vaddr)) ==> Valid()
      ensures var v := ComputeIndices(vaddr);
        Huge(flags) ==>
          && entry == None
          && (forall x | SameHuge(v, x) ::
                Flat(mem, root, x) == Some(paddr | flags) && CoveredBy(mem, root, x, paddr | flags))
          && (forall x | !SameHuge(v, x) :: Untouched(old(mem), mem, root, x))
          && HugeAccess(old(mem), mem, root, v, paddr | flags, flags)
      ensures var v := ComputeIndices(vaddr);
        !Huge(flags) && !Covered(old(mem), root, v) ==>
          && LowestLevel(mem, root, v) == entry
          && Flat(mem, root, v) == Some(paddr | flags)
          && (forall x | x != v :: Untouched(old(mem), mem, root, x))
          && SmallAccess(old(mem), mem, root, v, paddr | flags, flags)
      ensures var v := ComputeIndices(vaddr);
        !Huge(flags) && Covered(old(mem), root, v) ==>
          && entry == Some(Word(HugeTarget(old(mem), root, v), v.i1)) && mem == old(mem)[entry.value := paddr | flags]
          && (!Aliased(old(mem), root, old(owner), v) ==> forall x :: Untouched(old(mem), mem, root, x))
      ensures Huge(flags) || !Covered(old(mem), root, ComputeIndices(vaddr)) ==>
        FreshKept(old(mem), mem, old(owner), owner, {f3, f2, f1})
    {
      LeafBits(paddr, flags);
      entry := MapAt(ComputeIndices(vaddr), paddr | flags, flags, f3, f2, f1);
    }

    // pml4_unmap_page: clears P of the one entry that maps vaddr and nothing else; the result is the size of
    // the range that entry covers, 0 if there is none.
    method UnmapPage(vaddr: bv64) returns (size: nat)
      requires Valid()
      modifies this
      ensures Valid()
      ensures Unmapped(old(mem), mem, root, ComputeIndices(vaddr), size)
    {
      size := UnmapAt(ComputeIndices(vaddr));
    }

    method UnmapHuge(v: Indices, pml2: Table)
      requires Valid() && Walk2(mem, root, v) == Some(pml2) && Huge(Read(mem, Word(pml2, v.i2)))
      modifies this
      ensures Valid()
      ensures Unmapped(old(mem), mem, root, v, 0x200000)
    {
      var e := NotPresent(Read(mem, Word(pml2, v.i2)));
      ClearBits(Read(mem, Word(pml2, v.i2)));
      ClearHuge(mem, root, owner, v, pml2, e);
      mem := mem[Word(pml2, v.i2) := e];
    }

    method UnmapLeaf(v: Indices, w: Word)
      requires Valid() && LowestLevel(mem, root, v) == Some(w) && w.table in owner && owner[w.table].L1?
      modifies this
      ensures Valid()
      ensures Unmapped(old(mem), mem, root, v, 0x1000)
    {
      var e := NotPresent(Read(mem, w));
      ClearBits(Read(mem, w));
      ClearLeaf(mem, root, owner, v, w, e);
      mem := mem[w := e];
    }

    method UnmapAt(v: Indices) returns (size: nat)
      requires Valid()
      modifies this
      ensures Valid()
      ensures Unmapped(old(mem), mem, root, v, size)
    {
      var e4 := Read(mem, Word(root, v.i4));
      if !Present(e4) { return 0; }
      var e3 := Read(mem, Word(Target(e4), v.i3));
      if !Present(e3) { return 0; }
      var pml2 := Target(e3);
      var e2 := Read(mem, Word(pml2, v.i2));
      if Huge(e2) {
        UnmapHuge(v, pml2);
        return 0x200000;
      }
      if !Present(e2) { return 0; }
      var w := Word(Target(e2), v.i1);
      LeafIsL1(mem, root, owner, v, w);
      UnmapLeaf(v, w);
      return 0x1000;
    }
  }

  lemma EmptyFresh(owner: map<Table, Path>, t: Table)
    requires t !in owner && TableOk(t)
    ensures Fresh(map[], owner, t)
  {}

  // A table in empty memory, and pages for more.
  method EmptyTable() returns (table: PageTable)
    ensures fresh(table) && table.Valid() && table.mem == map[] && table.root == Table(0x1000)
    ensures forall t | t in {Table(0x2000), Table(0x3000), Table(0x4000), Table(0x5000), Table(0x6000), Table(0x7000),
                             Table(0x20_0000)} :: Fresh(table.mem, table.owner, t)
  {
    EmptyFresh(map[], Table(0x1000));
    table := new PageTable(map[], Table(0x1000));
  }

  // 2 MiB mapped at 0, then 4 KiB asked for at 0x1000: the answer is an entry, but the page still maps to the large
  // one.
  method SmallUnderHuge() returns (table: PageTable, entry: Option<Word>)
    ensures fresh(table) && table.Valid() && entry == Some(Word(Table(0x20_0000), 1))
    ensures Flat(table.mem, table.root, ComputeIndices(0x1000)) == Some(0x20_0083)
  {
    table := EmptyTable();
    entry := table.MapPage(0, 0x20_0000, 0x83, Table(0x2000), Table(0x3000), Table(0x4000));
    var v := ComputeIndices(0x1000);
    assert v == Indices(0, 0, 0, 1) && SameHuge(ComputeIndices(0), v);
    assert CoveredBy(table.mem, table.root, v, 0x20_0083) && Fresh(table.mem, table.owner, Table(0x20_0000));
    ghost var m := table.mem;
    entry := table.MapPage(0x1000, 0x8000, 0x3, Table(0x5000), Table(0x6000), Table(0x7000));
    assert Untouched(m, table.mem, table.root, v);
  }

  lemma AlignedBits(paddr: bv64, flags: bv64)
    requires paddr & 0x8000_0000_0000_0fff == 0
    ensures (User(paddr | flags) <==> User(flags)) && (NoExec(paddr | flags) <==> NoExec(flags))
  {}

  // Where no table was on the way, the flags alone decide.
  lemma FirstMapping(m: Memory, m': Memory, root: Table, v: Indices, paddr: bv64, flags: bv64)
    requires !Huge(flags) && !Present(Read(m, Word(root, v.i4))) && paddr & 0x8000_0000_0000_0fff == 0
    requires SmallAccess(m, m', root, v, paddr | flags, flags)
    ensures (MayUse(m', root, v) <==> User(flags)) && (MayRun(m', root, v) <==> !NoExec(flags))
  {
    AlignedBits(paddr, flags);
    assert TrailOf(m, root, v).e3 == 0 && TrailOf(m, root, v).e2 == 0;
  }

  // A page for the kernel at 0x1000, then one for user code at 0x2000: the tables made for the first keep user code
  // from the second.
  method SupervisorFirst() returns (table: PageTable)
    ensures fresh(table) && table.Valid()
    ensures Flat(table.mem, table.root, ComputeIndices(0x2000)) == Some(0x9007)
    ensures !MayUse(table.mem, table.root, ComputeIndices(0x2000))
  {
    table := EmptyTable();
    var u, v := ComputeIndices(0x1000), ComputeIndices(0x2000);
    assert u == Indices(0, 0, 0, 1) && v == Indices(0, 0, 0, 2) && !Covered(table.mem, table.root, u);
    var entry := table.MapPage(0x1000, 0x8000, 0x3, Table(0x2000), Table(0x3000), Table(0x4000));
    ghost var m := table.mem;
    assert !User(TrailOf(m, table.root, u).e4);
    SameTables(m, table.root, u, v);
    entry := table.MapPage(0x2000, 0x9000, 0x7, Table(0x5000), Table(0x6000), Table(0x7000));
  }

  // Pages of one 2 MiB range share their tables.
  lemma SameTables(m: Memory, root: Table, v: Indices, x: Indices)
    requires SameHuge(v, x) && Flat(m, root, v).Some?
    ensures TrailOf(m, root, x) == TrailOf(m, root, v) && Present(TrailOf(m, root, v).e4)
    ensures Covered(m, root, x) == Covered(m, root, v)
  {}
}
