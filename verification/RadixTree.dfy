// The 4-level page table of kernel/mm/vmm.c as words of physical memory, and the flat map it stands for.
module RadixTree {
  import opened Common

  // Physical address of a table.
  datatype Table = Table(addr: bv64)

  // The word &table[index]; Address gives its byte address.
  datatype Word = Word(table: Table, index: bv64)

  type Memory = map<Word, bv64>

  // struct pml_indices, without the fifth level.
  datatype Indices = Indices(i4: bv64, i3: bv64, i2: bv64, i1: bv64)

  // Which part of the address space a table serves: the indices leading to it.
  datatype Path = Top | L3(i4: bv64) | L2(i4: bv64, i3: bv64) | L1(i4: bv64, i3: bv64, i2: bv64)

  // ----- address arithmetic -----

  // compute_table_indices
  function ComputeIndices(v: bv64): Indices {
    Indices((v >> 39) & 0x1ff, (v >> 30) & 0x1ff, (v >> 21) & 0x1ff, (v >> 12) & 0x1ff)
  }

  predicate IndexOk(i: bv64) { i & 0x1ff == i }

  predicate IndicesOk(v: Indices) { IndexOk(v.i4) && IndexOk(v.i3) && IndexOk(v.i2) && IndexOk(v.i1) }

  predicate SameHuge(v: Indices, x: Indices) { v.i4 == x.i4 && v.i3 == x.i3 && v.i2 == x.i2 }

  lemma IndexMasks(v: bv64, x: bv64)
    ensures (v >> 39) & 0x1ff == (x >> 39) & 0x1ff <==> (v ^ x) & 0xff80_0000_0000 == 0
    ensures (v >> 30) & 0x1ff == (x >> 30) & 0x1ff <==> (v ^ x) & 0x7f_c000_0000 == 0
    ensures (v >> 21) & 0x1ff == (x >> 21) & 0x1ff <==> (v ^ x) & 0x3fe0_0000 == 0
    ensures (v >> 12) & 0x1ff == (x >> 12) & 0x1ff <==> (v ^ x) & 0x1f_f000 == 0
  {}

  lemma MasksCover(d: bv64)
    ensures d & 0xffff_ffe0_0000 == 0 <==>
      d & 0xff80_0000_0000 == 0 && d & 0x7f_c000_0000 == 0 && d & 0x3fe0_0000 == 0
    ensures d & 0xffff_ffff_f000 == 0 <==> d & 0xffff_ffe0_0000 == 0 && d & 0x1f_f000 == 0
  {}

  lemma IndicesInRange(v: bv64)
    ensures IndicesOk(ComputeIndices(v))
  {}

  // Each index selects within the part of the address space that the one before it selected.
  lemma IndicesCompose(v: bv64)
    ensures var x := ComputeIndices(v);
      (x.i4 << 39) | (x.i3 << 30) | (x.i2 << 21) | (x.i1 << 12) == v & 0xffff_ffff_f000
  {}

  // Indices coincide exactly for addresses on the same 4 KiB page modulo 2^48.
  lemma IndicesArePages(v: bv64, x: bv64)
    ensures ComputeIndices(v) == ComputeIndices(x) <==> (v ^ x) & 0xffff_ffff_f000 == 0
  {
    IndicesAreHuge(v, x);
    MasksCover(v ^ x);
    IndexMasks(v, x);
    var a, b := ComputeIndices(v), ComputeIndices(x);
    assert a == b <==> SameHuge(a, b) && a.i1 == b.i1;
  }

  lemma IndicesAreHuge(v: bv64, x: bv64)
    ensures SameHuge(ComputeIndices(v), ComputeIndices(x)) <==> (v ^ x) & 0xffff_ffe0_0000 == 0
  {
    IndexMasks(v, x);
    MasksCover(v ^ x);
  }

  predicate TableOk(t: Table) { t.addr & 0x000f_ffff_ffff_f000 == t.addr }

  function Address(w: Word): bv64 { w.table.addr + (w.index << 3) }

  // Words of page-aligned tables overlap only if they are the same entry of the same table.
  lemma AddressInjective(w: Word, x: Word)
    requires TableOk(w.table) && TableOk(x.table) && IndexOk(w.index) && IndexOk(x.index)
    ensures Address(w) & 7 == 0
    ensures Address(w) == Address(x) <==> w == x
  {}

  function Read(m: Memory, w: Word): bv64 { if w in m then m[w] else 0 }

  // Tests of VMM_FLAGS_P, VMM_FLAGS_RW and VMM_FLAGS_PS.
  predicate Present(e: bv64) { e & 0x1 != 0 }
  predicate Writable(e: bv64) { e & 0x2 != 0 }
  predicate Huge(e: bv64) { e & 0x80 != 0 }

  // Tests of VMM_FLAGS_US and VMM_FLAGS_NX.
  predicate User(e: bv64) { e & 0x4 != 0 }
  predicate NoExec(e: bv64) { e & 0x8000_0000_0000_0000 != 0 }

  // entry & ~(VMM_FLAGS_P)
  function NotPresent(e: bv64): bv64 { e & 0xffff_ffff_ffff_fffe }

  // entry & ~(0xfff), the table an intermediate entry points to
  function Target(e: bv64): Table { Table(e & 0xffff_ffff_ffff_f000) }

  // Flags that leave the address bits alone.
  predicate FlagsFit(flags: bv64) { flags & 0x7fff_ffff_ffff_f000 == 0 }

  // pmm_alloc(1, 1) | (flags & ~(VMM_FLAGS_PS | VMM_FLAGS_G | VMM_FLAGS_NX)) | VMM_FLAGS_RW
  function Link(t: Table, flags: bv64): bv64 {
    t.addr | (flags & 0x7fff_ffff_ffff_fe7f) | 0x2
  }

  lemma LinkBits(t: Table, flags: bv64)
    requires TableOk(t) && FlagsFit(flags) && Present(flags)
    ensures Present(Link(t, flags)) && Target(Link(t, flags)) == t
    ensures !Huge(Link(t, flags)) && Writable(Link(t, flags))
    ensures (User(Link(t, flags)) <==> User(flags)) && !NoExec(Link(t, flags))
    // of the low twelve bits all but RW, PS and G are the mapping's
    ensures Link(t, flags) & 0xe7d == flags & 0xe7d
  {}

  // ----- the walk -----

  function Walk3(m: Memory, root: Table, v: Indices): Option<Table> {
    var e := Read(m, Word(root, v.i4));
    if Present(e) then Some(Target(e)) else None
  }

  function Walk2(m: Memory, root: Table, v: Indices): Option<Table> {
    match Walk3(m, root, v)
    case None => None
    case Some(t) => var e := Read(m, Word(t, v.i3)); if Present(e) then Some(Target(e)) else None
  }

  // pml4_lowest_level
  function LowestLevel(m: Memory, root: Table, v: Indices): Option<Word> {
    match Walk2(m, root, v)
    case None => None
    case Some(t) =>
      var e := Read(m, Word(t, v.i2));
      if Huge(e) then Some(Word(t, v.i2))
      else if !Present(e) then None
      else Some(Word(Target(e), v.i1))
  }

  function IfPresent(e: bv64): Option<bv64> { if Present(e) then Some(e) else None }

  // The flat map: the present leaf entry of an address, if it has one.
  function Flat(m: Memory, root: Table, v: Indices): Option<bv64> {
    match LowestLevel(m, root, v)
    case None => None
    case Some(w) => IfPresent(Read(m, w))
  }

  // ----- the shape of the tree -----

  // The table one level down, for an index into a table that is not a leaf table.
  function Below(p: Path, i: bv64): Path
    requires !p.L1?
  {
    match p
    case Top => L3(i)
    case L3(i4) => L2(i4, i)
    case L2(i4, i3) => L1(i4, i3, i)
  }

  // An entry that points to a table: present, and not a 2 MiB leaf.
  predicate Links(p: Path, e: bv64) {
    !p.L1? && Present(e) && (p.L2? ==> !Huge(e))
  }

  ghost predicate EntryOk(owner: map<Table, Path>, p: Path, i: bv64, e: bv64) {
    Links(p, e) ==> Target(e) in owner && owner[Target(e)] == Below(p, i) && Writable(e)
  }

  // Each table serves one part of the address space, so tables never alias, and every link keeps RW.
  ghost predicate Wf(m: Memory, root: Table, owner: map<Table, Path>) {
    && root in owner && owner[root] == Top
    && (forall t, i | t in owner :: EntryOk(owner, owner[t], i, Read(m, Word(t, i))))
  }

  // pmm_alloc returns a zeroed, page-aligned page that is not part of the tree.
  ghost predicate Fresh(m: Memory, owner: map<Table, Path>, t: Table) {
    t !in owner && TableOk(t) && forall i :: Read(m, Word(t, i)) == 0
  }

  lemma WalkOwned(m: Memory, root: Table, owner: map<Table, Path>, v: Indices)
    requires Wf(m, root, owner)
    ensures Walk3(m, root, v).Some? ==> Walk3(m, root, v).value in owner && owner[Walk3(m, root, v).value] == L3(v.i4)
    ensures Walk2(m, root, v).Some? ==>
      Walk2(m, root, v).value in owner && owner[Walk2(m, root, v).value] == L2(v.i4, v.i3)
  {
    assert EntryOk(owner, Top, v.i4, Read(m, Word(root, v.i4)));
    if Walk3(m, root, v).Some? {
      var t := Walk3(m, root, v).value;
      assert EntryOk(owner, owner[t], v.i3, Read(m, Word(t, v.i3)));
    }
  }

  // Entry i of a table that serves p is the leaf of v.
  predicate LeafOf(p: Path, i: bv64, v: Indices) {
    (p == L2(v.i4, v.i3) && i == v.i2) || (p == L1(v.i4, v.i3, v.i2) && i == v.i1)
  }

  lemma LeafOwned(m: Memory, root: Table, owner: map<Table, Path>, v: Indices)
    requires Wf(m, root, owner) && LowestLevel(m, root, v).Some?
    ensures var w := LowestLevel(m, root, v).value;
      w.table in owner && LeafOf(owner[w.table], w.index, v) && (owner[w.table].L2? ==> Huge(Read(m, w)))
  {
    WalkOwned(m, root, owner, v);
    var t := Walk2(m, root, v).value;
    assert EntryOk(owner, owner[t], v.i2, Read(m, Word(t, v.i2)));
  }

  // Two addresses reach the same entry only on the same page, or in the same 2 MiB range.
  lemma LeavesDistinct(m: Memory, root: Table, owner: map<Table, Path>, v: Indices, x: Indices, w: Word)
    requires Wf(m, root, owner) && LowestLevel(m, root, v) == Some(w) && LowestLevel(m, root, x) == Some(w)
    ensures SameHuge(v, x)
    ensures w.table in owner && (owner[w.table].L1? ==> v == x)
  {
    LeafOwned(m, root, owner, v);
    LeafOwned(m, root, owner, x);
  }

  // Write permission as the processor computes it: RW in every entry of the walk.
  predicate MayWrite(m: Memory, root: Table, v: Indices) {
    var e4 := Read(m, Word(root, v.i4));
    Present(e4) && Writable(e4) &&
    var e3 := Read(m, Word(Target(e4), v.i3));
    Present(e3) && Writable(e3) &&
    var e2 := Read(m, Word(Target(e3), v.i2));
    Present(e2) && Writable(e2) &&
    (Huge(e2) || var e1 := Read(m, Word(Target(e2), v.i1)); Present(e1) && Writable(e1))
  }

  // Since every link keeps RW, write permission is decided by the leaf alone.
  lemma LeafDecidesWrite(m: Memory, root: Table, owner: map<Table, Path>, v: Indices)
    requires Wf(m, root, owner)
    ensures MayWrite(m, root, v) <==> Flat(m, root, v).Some? && Writable(Flat(m, root, v).value)
  {
    WalkOwned(m, root, owner, v);
    assert EntryOk(owner, Top, v.i4, Read(m, Word(root, v.i4)));
    if Walk3(m, root, v).Some? {
      var t := Walk3(m, root, v).value;
      assert EntryOk(owner, owner[t], v.i3, Read(m, Word(t, v.i3)));
      if Walk2(m, root, v).Some? {
        var u := Walk2(m, root, v).value;
        assert EntryOk(owner, owner[u], v.i2, Read(m, Word(u, v.i2)));
      }
    }
  }

  // ----- who may use a page -----

  // User access as the processor computes it: US in every entry of the walk.
  predicate MayUse(m: Memory, root: Table, v: Indices) {
    var e4 := Read(m, Word(root, v.i4));
    Present(e4) && User(e4) &&
    var e3 := Read(m, Word(Target(e4), v.i3));
    Present(e3) && User(e3) &&
    var e2 := Read(m, Word(Target(e3), v.i2));
    Present(e2) && User(e2) &&
    (Huge(e2) || var e1 := Read(m, Word(Target(e2), v.i1)); Present(e1) && User(e1))
  }

  // Execution: no entry of the walk has NX.
  predicate MayRun(m: Memory, root: Table, v: Indices) {
    var e4 := Read(m, Word(root, v.i4));
    Present(e4) && !NoExec(e4) &&
    var e3 := Read(m, Word(Target(e4), v.i3));
    Present(e3) && !NoExec(e3) &&
    var e2 := Read(m, Word(Target(e3), v.i2));
    Present(e2) && !NoExec(e2) &&
    (Huge(e2) || var e1 := Read(m, Word(Target(e2), v.i1)); Present(e1) && !NoExec(e1))
  }

  // The entries above the leaf tables on the walk of a page, 0 where the walk does not get to.
  datatype Trail = Trail(e4: bv64, e3: bv64, e2: bv64)

  function TrailOf(m: Memory, root: Table, v: Indices): Trail {
    var e4 := Read(m, Word(root, v.i4));
    var e3 := if Present(e4) then Read(m, Word(Target(e4), v.i3)) else 0;
    var e2 := if Present(e3) then Read(m, Word(Target(e3), v.i2)) else 0;
    Trail(e4, e3, e2)
  }

  // Every table on the way is open to user code, and to execution.
  predicate OpenToUser(t: Trail) { User(t.e4) && User(t.e3) && (Huge(t.e2) || User(t.e2)) }
  predicate OpenToRun(t: Trail) { !NoExec(t.e4) && !NoExec(t.e3) && (Huge(t.e2) || !NoExec(t.e2)) }

  // The leaf and the tables on the way decide.
  lemma AccessDecided(m: Memory, root: Table, v: Indices)
    ensures MayUse(m, root, v) <==>
      Flat(m, root, v).Some? && User(Flat(m, root, v).value) && OpenToUser(TrailOf(m, root, v))
    ensures MayRun(m, root, v) <==>
      Flat(m, root, v).Some? && !NoExec(Flat(m, root, v).value) && OpenToRun(TrailOf(m, root, v))
  {}

  // Nothing on the way is replaced.
  predicate Kept(a: Trail, b: Trail) {
    && (Present(a.e4) ==> b.e4 == a.e4) && (Present(a.e3) ==> b.e3 == a.e3) && (Present(a.e2) ==> b.e2 == a.e2)
  }

  ghost predicate TrailKept(m: Memory, m': Memory, root: Table, x: Indices) {
    Kept(TrailOf(m, root, x), TrailOf(m', root, x))
  }

  // Who may use and run a page stays the same.
  ghost predicate SameAccess(m: Memory, m': Memory, root: Table, x: Indices) {
    MayUse(m', root, x) == MayUse(m, root, x) && MayRun(m', root, x) == MayRun(m, root, x)
  }

  // A mapped page whose entry and tables stay.
  lemma KeptAccess(m: Memory, m': Memory, root: Table, x: Indices)
    requires Flat(m', root, x) == Flat(m, root, x) && TrailKept(m, m', root, x)
    ensures SameAccess(m, m', root, x)
  {
    AccessDecided(m, root, x);
    AccessDecided(m', root, x);
  }

  // Filling an absent entry replaces nothing.
  lemma LinkKept(m: Memory, root: Table, w: Word, e: bv64, x: Indices)
    requires !Present(Read(m, w))
    ensures TrailKept(m, m[w := e], root, x)
  {}

  // An entry of a leaf table is on no trail.
  lemma LeafTrail(m: Memory, root: Table, owner: map<Table, Path>, w: Word, e: bv64, x: Indices)
    requires Wf(m, root, owner) && w.table in owner && owner[w.table].L1?
    ensures TrailOf(m[w := e], root, x) == TrailOf(m, root, x)
  {
    WalkOwned(m, root, owner, x);
  }

  // The walks to a second-level table do not read its entries.
  lemma HugeWalks(m: Memory, root: Table, owner: map<Table, Path>, v: Indices, t: Table, e: bv64, x: Indices)
    requires Wf(m, root, owner) && Walk2(m, root, v) == Some(t)
    ensures var m' := m[Word(t, v.i2) := e];
      && t != root && Walk3(m, root, x) != Some(t)
      && Walk3(m', root, x) == Walk3(m, root, x) && Walk2(m', root, x) == Walk2(m, root, x)
    ensures SameHuge(v, x) <==> Walk2(m, root, x) == Some(t) && x.i2 == v.i2
  {
    WalkOwned(m, root, owner, v);
    WalkOwned(m, root, owner, x);
    assert t != root && Walk3(m, root, x) != Some(t);
  }

  // A 2 MiB entry is on the trails of its own 512 pages only.
  lemma HugeTrail(m: Memory, root: Table, owner: map<Table, Path>, v: Indices, t: Table, e: bv64, x: Indices)
    requires Wf(m, root, owner) && Walk2(m, root, v) == Some(t)
    ensures var a := TrailOf(m, root, x);
      TrailOf(m[Word(t, v.i2) := e], root, x) == if SameHuge(v, x) then Trail(a.e4, a.e3, e) else a
  {
    HugeWalks(m, root, owner, v, t, e, x);
  }

  // A write outside the tables is on no trail.
  lemma OutsideTrail(m: Memory, root: Table, owner: map<Table, Path>, w: Word, e: bv64, x: Indices)
    requires Wf(m, root, owner) && w.table !in owner
    ensures TrailOf(m[w := e], root, x) == TrailOf(m, root, x)
  {
    WalkOwned(m, root, owner, x);
  }

  // ----- writing a leaf -----

  lemma LeafWriteWf(m: Memory, root: Table, owner: map<Table, Path>, w: Word, e: bv64)
    requires Wf(m, root, owner) && w.table in owner && !Links(owner[w.table], e)
    ensures Wf(m[w := e], root, owner)
  {
    forall t, i | t in owner
      ensures EntryOk(owner, owner[t], i, Read(m[w := e], Word(t, i)))
    {
      assert EntryOk(owner, owner[t], i, Read(m, Word(t, i)));
    }
  }

  // Writing an entry of a leaf table leaves every walk as it was.
  lemma LeafWriteWalk(m: Memory, root: Table, owner: map<Table, Path>, w: Word, e: bv64, x: Indices)
    requires Wf(m, root, owner) && w.table in owner && owner[w.table].L1?
    ensures LowestLevel(m[w := e], root, x) == LowestLevel(m, root, x)
  {
    WalkOwned(m, root, owner, x);
  }

  lemma FlatAfterWrite(m: Memory, root: Table, w: Word, e: bv64, x: Indices)
    requires LowestLevel(m[w := e], root, x) == LowestLevel(m, root, x)
    ensures Flat(m[w := e], root, x) == if LowestLevel(m, root, x) == Some(w) then IfPresent(e) else Flat(m, root, x)
  {}

  // Through a leaf table, exactly the page of the entry changes.
  lemma LeafWriteFlat(m: Memory, root: Table, owner: map<Table, Path>, v: Indices, w: Word, e: bv64, x: Indices)
    requires Wf(m, root, owner) && LowestLevel(m, root, v) == Some(w)
    requires w.table in owner && owner[w.table].L1?
    ensures Flat(m[w := e], root, x) == if x == v then IfPresent(e) else Flat(m, root, x)
  {
    LeafWriteWalk(m, root, owner, w, e, x);
    FlatAfterWrite(m, root, w, e, x);
    LeafOwned(m, root, owner, v);
    if LowestLevel(m, root, x) == Some(w) { LeafOwned(m, root, owner, x); }
  }

  // Writing a 2 MiB entry redirects the walks of its own 512 pages and no others.
  lemma HugeWriteWalk(m: Memory, root: Table, owner: map<Table, Path>, v: Indices, t: Table, e: bv64, x: Indices)
    requires Wf(m, root, owner) && Walk2(m, root, v) == Some(t) && Huge(e)
    ensures LowestLevel(m[Word(t, v.i2) := e], root, x) ==
      if SameHuge(v, x) then Some(Word(t, v.i2)) else LowestLevel(m, root, x)
  {
    HugeWriteUpper(m, root, owner, v, t, e, x);
    WalkOwned(m, root, owner, v);
    WalkOwned(m, root, owner, x);
  }

  // The upper two levels of every walk stay.
  lemma HugeWriteUpper(m: Memory, root: Table, owner: map<Table, Path>, v: Indices, t: Table, e: bv64, x: Indices)
    requires Wf(m, root, owner) && Walk2(m, root, v) == Some(t)
    ensures Walk2(m[Word(t, v.i2) := e], root, x) == Walk2(m, root, x)
  {
    WalkOwned(m, root, owner, v);
    WalkOwned(m, root, owner, x);
  }

  lemma HugeWriteFlat(m: Memory, root: Table, owner: map<Table, Path>, v: Indices, t: Table, e: bv64, x: Indices)
    requires Wf(m, root, owner) && Walk2(m, root, v) == Some(t) && Huge(e)
    ensures Flat(m[Word(t, v.i2) := e], root, x) ==
      if SameHuge(v, x) then IfPresent(e) else Flat(m, root, x)
  {
    var w := Word(t, v.i2);
    HugeWriteWalk(m, root, owner, v, t, e, x);
    if !SameHuge(v, x) {
      FlatAfterWrite(m, root, w, e, x);
      WalkOwned(m, root, owner, v);
      if LowestLevel(m, root, x) == Some(w) { LeafOwned(m, root, owner, x); }
    }
  }

  // ----- linking a fresh table -----

  lemma LinkWf(m: Memory, root: Table, owner: map<Table, Path>, t: Table, i: bv64, f: Table, flags: bv64)
    requires Wf(m, root, owner) && t in owner && !owner[t].L1? && Fresh(m, owner, f)
    requires FlagsFit(flags) && Present(flags)
    ensures Wf(m[Word(t, i) := Link(f, flags)], root, owner[f := Below(owner[t], i)])
  {
    LinkBits(f, flags);
    var m', owner' := m[Word(t, i) := Link(f, flags)], owner[f := Below(owner[t], i)];
    forall u, j | u in owner'
      ensures EntryOk(owner', owner'[u], j, Read(m', Word(u, j)))
    {
      if u in owner { assert EntryOk(owner, owner[u], j, Read(m, Word(u, j))); }
      else { assert Read(m, Word(u, j)) == 0; }
    }
  }

  // The tables on the walk of `x` are distinct from each other, whatever level each is at.
  lemma WalkApart(m: Memory, root: Table, owner: map<Table, Path>, t: Table, x: Indices)
    requires Wf(m, root, owner) && t in owner && !owner[t].L1?
    ensures !owner[t].Top? ==> t != root
    ensures !owner[t].L3? ==> Walk3(m, root, x) != Some(t)
    ensures !owner[t].L2? ==> Walk2(m, root, x) != Some(t)
    ensures LowestLevel(m, root, x).Some? && LowestLevel(m, root, x).value.table == t ==>
      Walk2(m, root, x) == Some(t) && LowestLevel(m, root, x).value == Word(t, x.i2) && Huge(Read(m, Word(t, x.i2)))
  {
    WalkOwned(m, root, owner, x);
    if LowestLevel(m, root, x).Some? { LeafOwned(m, root, owner, x); }
  }

  lemma TailSame(m: Memory, root: Table, w: Word, e: bv64, x: Indices)
    requires Walk2(m[w := e], root, x) == Walk2(m, root, x)
    requires Walk2(m, root, x).Some? ==> Word(Walk2(m, root, x).value, x.i2) != w
    requires LowestLevel(m, root, x) != Some(w)
    ensures LowestLevel(m[w := e], root, x) == LowestLevel(m, root, x)
    ensures Flat(m[w := e], root, x) == Flat(m, root, x)
  {}

  ghost predicate NoPageMoves(m: Memory, m': Memory, root: Table, x: Indices) {
    && Flat(m', root, x) == Flat(m, root, x)
    && (Flat(m, root, x).Some? ==> LowestLevel(m', root, x) == LowestLevel(m, root, x))
  }

  ghost predicate Linkable(m: Memory, w: Word, f: Table, e: bv64) {
    && !Present(Read(m, w)) && w.table != f
    && Present(e) && Target(e) == f && !Huge(e)
    && forall i :: Read(m, Word(f, i)) == 0
  }

  lemma LinkTop(m: Memory, root: Table, i: bv64, f: Table, e: bv64, x: Indices)
    requires Linkable(m, Word(root, i), f, e)
    requires Walk3(m, root, x) != Some(root) && Walk2(m, root, x) != Some(root)
    requires LowestLevel(m, root, x).Some? ==> LowestLevel(m, root, x).value.table != root
    ensures NoPageMoves(m, m[Word(root, i) := e], root, x)
  {
    if i == x.i4 {
      assert Read(m, Word(f, x.i3)) == 0;
    } else {
      TailSame(m, root, Word(root, i), e, x);
    }
  }

  lemma LinkMid(m: Memory, root: Table, t: Table, i: bv64, f: Table, e: bv64, x: Indices)
    requires Linkable(m, Word(t, i), f, e)
    requires t != root && Walk2(m, root, x) != Some(t)
    requires LowestLevel(m, root, x).Some? ==> LowestLevel(m, root, x).value.table != t
    ensures NoPageMoves(m, m[Word(t, i) := e], root, x)
  {
    if Walk3(m, root, x) == Some(t) && i == x.i3 {
      LinkMidHere(m, root, t, f, e, x);
    } else {
      assert Walk3(m[Word(t, i) := e], root, x) == Walk3(m, root, x);
      assert Walk2(m[Word(t, i) := e], root, x) == Walk2(m, root, x);
      TailSame(m, root, Word(t, i), e, x);
    }
  }

  lemma LinkMidHere(m: Memory, root: Table, t: Table, f: Table, e: bv64, x: Indices)
    requires Linkable(m, Word(t, x.i3), f, e) && t != root && Walk3(m, root, x) == Some(t)
    ensures NoPageMoves(m, m[Word(t, x.i3) := e], root, x)
  {
    var m' := m[Word(t, x.i3) := e];
    assert Read(m', Word(f, x.i2)) == Read(m, Word(f, x.i2)) == 0;
    assert Walk3(m', root, x) == Some(t) && Walk2(m', root, x) == Some(f);
  }

  lemma LinkLow(m: Memory, root: Table, t: Table, i: bv64, f: Table, e: bv64, x: Indices)
    requires Linkable(m, Word(t, i), f, e)
    requires t != root && Walk3(m, root, x) != Some(t)
    requires LowestLevel(m, root, x).Some? && LowestLevel(m, root, x).value.table == t ==>
      Walk2(m, root, x) == Some(t) && LowestLevel(m, root, x).value == Word(t, x.i2)
    ensures NoPageMoves(m, m[Word(t, i) := e], root, x)
  {
    var m' := m[Word(t, i) := e];
    assert Walk3(m', root, x) == Walk3(m, root, x);
    assert Walk2(m', root, x) == Walk2(m, root, x);
    if Walk2(m, root, x) == Some(t) && i == x.i2 {
      assert Read(m, Word(f, x.i1)) == 0;
    } else {
      TailSame(m, root, Word(t, i), e, x);
    }
  }

  // A fresh table in place of an absent entry changes no page, and moves no present leaf.
  lemma LinkFlat(m: Memory, root: Table, owner: map<Table, Path>, t: Table, i: bv64, f: Table, e: bv64, x: Indices)
    requires Wf(m, root, owner) && t in owner && !owner[t].L1? && (owner[t].Top? ==> t == root)
    requires Linkable(m, Word(t, i), f, e)
    ensures NoPageMoves(m, m[Word(t, i) := e], root, x)
  {
    WalkApart(m, root, owner, t, x);
    match owner[t]
    case Top => LinkTop(m, root, i, f, e, x);
    case L3(_) => LinkMid(m, root, t, i, f, e, x);
    case L2(_, _) => LinkLow(m, root, t, i, f, e, x);
  }
}
