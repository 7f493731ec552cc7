// vmm_anon_map, vmm_fork_page_table and vmm_pf_handler on the kernel's own data: 64-bit entries and flag
// words updated in place. Each method is proved to perform the corresponding step of CopyOnWrite.
module CowKernel {
  import opened Common
  import opened CopyOnWrite
  import opened EntryBits
  import Mmap
  import RegionTree

  // struct page with the word behind its pml_entry pointer.
  datatype PageRecord = PageRecord(paddr: bv64, flags: bv64, reference: Cell, entry: bv64)

  function DecodeRecord(r: PageRecord): Mapping {
    Mapping(Frame(r.paddr), DecodeFlags(r.flags), r.reference, Decode(r.entry))
  }

  ghost function DecodePages(pages: map<Key, PageRecord>): map<Key, Mapping> {
    map k | k in pages :: DecodeRecord(pages[k])
  }

  lemma DecodedRecord(pages: map<Key, PageRecord>, k: Key)
    ensures DecodePages(pages).Keys == pages.Keys
    ensures k in pages ==> DecodePages(pages)[k].cell == pages[k].reference
  {}

  lemma DecodeUpdate(pages: map<Key, PageRecord>, k: Key, r: PageRecord)
    ensures DecodePages(pages[k := r]) == DecodePages(pages)[k := DecodeRecord(r)]
  {}

  predicate RecordOk(r: PageRecord) {
    FrameOk(r.paddr) && FlagsOk(r.flags) && Small(r.flags) && r.entry & SHARE == 0 && Small(r.entry)
  }

  // The parent's record and entry after the fork loop's two mask updates.
  function Protected(r: PageRecord): (p: PageRecord)
    requires RecordOk(r)
    ensures RecordOk(p) && DecodeRecord(p) == Shared(DecodeRecord(r))
    ensures Marked(r.entry, p.entry) && Marked(r.flags, p.flags) && p.paddr == r.paddr && p.reference == r.reference
  {
    ProtectMarks(r.entry);
    ProtectMarks(r.flags);
    ProtectBits(r.entry);
    ProtectBits(r.flags);
    r.(entry := (r.entry & !RW) | COW, flags := (r.flags & !RW) | COW)
  }

  // The child's record: the parent's, with the entry that map_page writes.
  function ChildCopy(r: PageRecord): (p: PageRecord)
    requires RecordOk(r)
    ensures RecordOk(p)
    ensures DecodeRecord(p) == DecodeRecord(r).(entry := Pte(Frame(r.paddr), DecodeFlags(r.flags)))
    ensures p.entry == r.paddr | r.flags && p.flags == r.flags && p.paddr == r.paddr && p.reference == r.reference
  {
    MapBits(r.paddr, r.flags);
    r.(entry := r.paddr | r.flags)
  }

  method OriginalFrame(e: bv64) returns (f: bv64)
    ensures FrameOk(f) && Frame(f) == Decode(e).frame
  {
    f := e & 0xff_ffff_f000;
  }

  // The faulting process's record after the copy-on-write branch.
  method Unshared(r: PageRecord, frame: bv64, c: Cell) returns (p: PageRecord)
    requires RecordOk(r) && FrameOk(frame) && r.entry & COW != 0
    ensures RecordOk(p) && p.entry & RW != 0 && Resolved(r.entry, p.entry) && p.flags == r.flags
    ensures DecodeRecord(p) == Owned(DecodeRecord(r), Frame(frame), c)
  {
    OwnBits(r.entry, frame);
    OwnResolved(r.entry, frame);
    p := r.(entry := frame | ((r.entry & 0x1ff) | RW), paddr := frame, reference := c);
  }

  // The fall-through of the handler: `entry | RW`.
  method Writable(r: PageRecord) returns (p: PageRecord)
    requires RecordOk(r) && r.entry & COW == 0
    ensures RecordOk(p) && p.entry & RW != 0 && Resolved(r.entry, p.entry) && p.flags == r.flags
    ensures DecodeRecord(p) ==
      DecodeRecord(r).(entry := Decode(r.entry).(flags := Decode(r.entry).flags.(writable := true)))
  {
    WriteBits(r.entry);
    WriteResolved(r.entry);
    p := r.(entry := r.entry | RW);
  }

  // What the flags of a fresh anonymous page mean.
  function AnonFlags(prot: bv64): Flags {
    Flags(true, prot & PROT_WRITE != 0, prot & PROT_USER != 0, prot & PROT_EXEC == 0, false)
  }

  // t is s after the fork step for page k.
  ghost predicate ForksPage(s: State, t: State, k: Key, child: Pid) {
    k in s.pages && s.pages[k].cell in s.cells && t == ForkPage(s, k, child)
  }

  // Parent and heir after the fork round of a record: both are marked and not writable, with the rest of their bits
  // from the parent's entry and from its record.
  predicate ShareOf(r: PageRecord, parent: PageRecord, heir: PageRecord) {
    && Marked(r.entry, parent.entry) && Marked(r.flags, parent.flags)
    && heir.entry == r.paddr | parent.flags && heir.flags == parent.flags
    && parent.paddr == heir.paddr == r.paddr && parent.reference == heir.reference == r.reference
  }

  // The records that the fork round leaves.
  method SharePair(r: PageRecord) returns (page: PageRecord, copy: PageRecord)
    requires RecordOk(r)
    ensures RecordOk(page) && RecordOk(copy) && ShareOf(r, page, copy)
    ensures DecodeRecord(page) == Shared(DecodeRecord(r)) && DecodeRecord(copy) == Inherited(DecodeRecord(r))
  {
    page := r;
    if page.entry & SHARE == 0 {
      page := Protected(page);
    }
    copy := ChildCopy(page);
  }

  // Storing such a pair and counting the new record is the fork step.
  lemma PairForks(procs: set<Pid>, pages: map<Key, PageRecord>, cells: map<Cell, int>, frames: map<Frame, Page>, k: Key,
                  child: Pid, page: PageRecord, copy: PageRecord)
    requires k in pages && pages[k].reference in cells
    requires DecodeRecord(page) == Shared(DecodeRecord(pages[k]))
    requires DecodeRecord(copy) == Inherited(DecodeRecord(pages[k]))
    ensures var c, pages' := pages[k].reference, pages[k := page][Key(child, k.vaddr) := copy];
      ForksPage(State(procs, DecodePages(pages), cells, frames),
                State(procs, DecodePages(pages'), cells[c := cells[c] + 1], frames), k, child)
  {
    DecodeUpdate(pages, k, page);
    DecodeUpdate(pages[k := page], Key(child, k.vaddr), copy);
  }

  // What the fork loop needs of the state it starts from, and what it ends in.
  lemma ForkWhole(s: State, parent: Pid, child: Pid, order: seq<bv64>)
    requires Inv(s) && parent in s.procs && child !in s.procs && Lists(s, parent, order)
    ensures var t := s.(procs := s.procs + {child});
      && Inv(t) && Lists(t, parent, order) && (forall k | k in t.pages :: k.pid != child)
      && ForkPages(t, parent, child, order) == Fork(s, parent, child, order)
    ensures Inv(Fork(s, parent, child, order))
    ensures Abs(Fork(s, parent, child, order)) == EagerFork(Abs(s), parent, child)
  {
    AddProcess(s, child);
    ForkKeeps(s, parent, child, order);
    ForkRefines(s, parent, child, order);
  }

  // Page k has its counter and its frame.
  ghost predicate Resolvable(s: State, k: Key) { k in s.pages && LinkedAt(s.pages[k], s.cells, s.frames) }

  // t is s after the write fault on page k.
  ghost predicate Resolves(s: State, t: State, k: Key, f: bv64, c: Cell) {
    Resolvable(s, k) && t == Fault(s, k, Frame(f), c)
  }

  // faulting_address & ~(0xfff)
  function PageOf(pid: Pid, address: bv64): Key { Key(pid, address & 0xffff_ffff_ffff_f000) }

  // The entry allows a store that the region's protection denies.
  predicate Exceeds(entry: bv64, prot: bv64) { entry & RW != 0 && prot & PROT_WRITE == 0 }

  lemma SameUser(e: bv64, e': bv64)
    requires Resolved(e, e')
    ensures e' & US == e & US && e' & RW != 0
  {}

  // The flags that vmm_anon_map gives the page.
  method AnonWord(prot: bv64) returns (flags: bv64)
    ensures FlagsOk(flags) && Small(flags) && DecodeFlags(flags) == AnonFlags(prot) && Permits(flags, prot)
  {
    flags := P | NX;
    if prot & PROT_WRITE != 0 { flags := flags | RW; }
    if prot & PROT_USER != 0 { flags := flags | US; }
    if prot & PROT_EXEC != 0 { flags := flags & !NX; }
  }

  class Vmm {
    var procs: set<Pid>
    var pages: map<Key, PageRecord>
    var cells: map<Cell, int>
    var frames: map<Frame, Page>

    ghost predicate Valid()
      reads this
    {
      forall k | k in pages :: RecordOk(pages[k])
    }

    ghost function Abstract(): State
      reads this
    {
      State(procs, DecodePages(pages), cells, frames)
    }

    // vmm_anon_map, once the region descent has found a region with protection `prot`; the frame and the
    // counter are what pmm_alloc and alloc returned.
    method AnonMap(k: Key, prot: bv64, f: bv64, c: Cell)
      requires Valid() && FrameOk(f)
      modifies this
      ensures Valid()
      ensures Abstract() == CopyOnWrite.AnonMap(old(Abstract()), k, Frame(f), c, AnonFlags(prot))
      ensures procs == old(procs) && k in pages && pages == old(pages)[k := pages[k]]
      ensures pages[k].entry == f | pages[k].flags && pages[k].paddr == f
      ensures Permits(pages[k].entry, prot) && Permits(pages[k].flags, prot)
    {
      var flags := AnonWord(prot);
      MapBits(f, flags);
      MapPermits(f, flags, prot);
      var page := PageRecord(f, flags, c, f | flags);
      DecodeUpdate(pages, k, page);
      pages := pages[k := page];
      cells := cells[c := 1];
      var zero := seq(PAGE_SIZE, (i: nat) => 0 as bv8);
      assert zero == Zeroed();
      frames := frames[Frame(f) := zero];
    }

    // One round of the fork loop.
    method ShareWith(k: Key, child: Pid)
      requires Valid() && k in pages && pages[k].reference in cells
      modifies this
      ensures Valid() && procs == old(procs)
      ensures ForksPage(old(Abstract()), Abstract(), k, child)
      ensures var j := Key(child, k.vaddr);
        && k in pages && j in pages && pages == old(pages)[k := pages[k]][j := pages[j]]
        && (j != k ==> ShareOf(old(pages)[k], pages[k], pages[j]))
    {
      var page, newPage := SharePair(pages[k]);
      PairForks(procs, pages, cells, frames, k, child, page, newPage);
      cells := cells[page.reference := cells[page.reference] + 1];
      pages := pages[k := page][Key(child, k.vaddr) := newPage];
    }

    // The loop of vmm_fork_page_table; `order` is the parent's record table as the loop meets it.
    method ForkLoop(parent: Pid, child: Pid, order: seq<bv64>)
      requires Valid() && Inv(Abstract()) && parent in procs && child in procs && parent != child
      requires Lists(Abstract(), parent, order)
      requires forall k | k in Abstract().pages :: k.pid != child
      modifies this
      ensures Valid()
      ensures Abstract() == ForkPages(old(Abstract()), parent, child, order)
    {
      ghost var s := Abstract();
      for i := 0 to |order|
        invariant Valid()
        invariant Abstract() == ForkPages(s, parent, child, order[..i])
      {
        ForkPagesNext(s, parent, child, order, i);
        ShareWith(Key(parent, order[i]), child);
      }
      assert order[..|order|] == order;
    }

    // vmm_fork_page_table.
    method ForkPageTable(parent: Pid, child: Pid, order: seq<bv64>)
      requires Valid() && Inv(Abstract())
      requires parent in procs && child !in procs && Lists(Abstract(), parent, order)
      modifies this
      ensures Valid() && Inv(Abstract())
      ensures Abstract() == Fork(old(Abstract()), parent, child, order)
      ensures Abs(Abstract()) == EagerFork(Abs(old(Abstract())), parent, child)
    {
      ghost var s := Abstract();
      ForkWhole(s, parent, child, order);
      procs := procs + {child};
      assert Abstract() == s.(procs := s.procs + {child});
      ForkLoop(parent, child, order);
    }

    // vmm_pf_handler for an address whose entry is not a file mapping. `regionProt` is the protection of
    // the region the descent finds, if any; `f` and `c` are what the allocators would hand out.
    method PageFault(k: Key, errorCode: bv64, regionProt: Option<bv64>, f: bv64, c: Cell) returns (status: bool)
      requires Valid() && Inv(Abstract()) && k.pid in procs
      requires errorCode & P == 0 <==> k !in pages
      requires FrameOk(f) && Frame(f) !in frames && c !in cells
      modifies this
      ensures Valid() && Inv(Abstract())
      ensures status == (k in pages) && (status <==> k in old(pages) || regionProt.Some?)
      ensures !status ==> Abstract() == old(Abstract())
      ensures k in old(pages) ==>
        && k in old(Abstract()).pages && LinkedAt(old(Abstract()).pages[k], old(cells), old(frames))
        && Abstract() == Fault(old(Abstract()), k, Frame(f), c)
        && Abs(Abstract()) == Abs(old(Abstract()))
        && Resolved(old(pages)[k].entry, pages[k].entry) && pages[k].flags == old(pages)[k].flags
      ensures k in pages ==> pages == old(pages)[k := pages[k]]
      ensures k !in old(pages) && regionProt.Some? ==> Permits(pages[k].entry, regionProt.value)
      ensures k !in old(pages) && regionProt.Some? ==>
        Abstract() == CopyOnWrite.AnonMap(old(Abstract()), k, Frame(f), c, AnonFlags(regionProt.value))
    {
      ghost var s := Abstract();
      if errorCode & P == 0 {
        if regionProt.None? { return false; }
        AnonMap(k, regionProt.value, f, c);
        AnonMapKeeps(s, k, Frame(f), c, AnonFlags(regionProt.value));
        assert k in Abstract().pages;
        return true;
      }
      assert k in s.pages && LinkedAt(s.pages[k], s.cells, s.frames);
      FaultKeeps(s, k, Frame(f), c);
      FaultView(s, k, Frame(f), c);
      ResolveFault(k, f, c);
      return true;
    }

    // The same for the page of a faulting address, with the region descent of vmm_anon_map: `t` is the process's region
    // tree.
    method PageFaultAt(pid: Pid, address: bv64, errorCode: bv64, root: RegionTree.Region?, f: bv64, c: Cell,
                       ghost t: RegionTree.Tree, ghost all: set<RegionTree.Region>) returns (status: bool)
      requires Valid() && Inv(Abstract()) && pid in procs
      requires errorCode & P == 0 <==> PageOf(pid, address) !in pages
      requires FrameOk(f) && Frame(f) !in frames && c !in cells
      requires RegionTree.Nodes(t) <= all && RegionTree.Shape(RegionTree.Links(all), root, t)
      modifies this
      ensures Valid() && Inv(Abstract())
      ensures var k, region := PageOf(pid, address), Mmap.FindClosed(t, address as nat);
        && (status <==> k in old(pages) || region.Some?)
        && (!status ==> Abstract() == old(Abstract()))
        && (k in pages ==> pages == old(pages)[k := pages[k]])
        && (k in old(pages) ==>
              && Abs(Abstract()) == Abs(old(Abstract())) && k in pages
              && Resolved(old(pages)[k].entry, pages[k].entry) && pages[k].entry & US == old(pages)[k].entry & US)
        && (k !in old(pages) && region.Some? ==> k in pages && Permits(pages[k].entry, region.value.prot))
        && (k !in old(pages) && region.Some? ==>
              Abstract() == CopyOnWrite.AnonMap(old(Abstract()), k, Frame(f), c, AnonFlags(region.value.prot)))
      ensures var k, region := PageOf(pid, address), Mmap.FindClosed(t, address as nat);
        region.Some? ==>
          && k in pages
          && (Exceeds(pages[k].entry, region.value.prot) <==>
              k in old(pages) && region.value.prot & PROT_WRITE == 0)
    {
      var k := Key(pid, address & 0xffff_ffff_ffff_f000);
      var region := Mmap.SearchRegion(root, address as nat, t, all);
      var prot := if region == null then None else Some(region.prot);
      status := PageFault(k, errorCode, prot, f, c);
      if k in old(pages) { SameUser(old(pages)[k].entry, pages[k].entry); }
      if k in pages { assert DecodeRecord(pages[k]) == Abstract().pages[k]; }
    }

    // The protection-fault half of vmm_pf_handler.
    method ResolveFault(k: Key, f: bv64, c: Cell)
      requires Valid() && k in pages && FrameOk(f)
      requires k in Abstract().pages && LinkedAt(Abstract().pages[k], cells, frames)
      modifies this
      ensures Valid()
      ensures Abstract() == Fault(old(Abstract()), k, Frame(f), c)
      ensures k in pages && pages[k].entry & RW != 0
      ensures procs == old(procs) && pages == old(pages)[k := pages[k]]
      ensures Resolved(old(pages)[k].entry, pages[k].entry) && pages[k].flags == old(pages)[k].flags
    {
      var page;
      assert DecodeRecord(pages[k]) == Abstract().pages[k];
      if pages[k].entry & COW != 0 {
        page := Unshare(pages[k], f, c);
      } else {
        page := Writable(pages[k]);
      }
      DecodeUpdate(pages, k, page);
      pages := pages[k := page];
    }

    // Its copy-on-write branch: the counter, the frame if it is still shared, and the new record.
    method Unshare(r: PageRecord, f: bv64, c: Cell) returns (page: PageRecord)
      requires RecordOk(r) && FrameOk(f) && r.reference in cells && Decode(r.entry).frame in frames
      requires r.entry & COW != 0
      modifies this`cells, this`frames
      ensures RecordOk(page) && page.entry & RW != 0 && Resolved(r.entry, page.entry) && page.flags == r.flags
      ensures var m := DecodeRecord(r);
        var copied := old(cells)[m.cell] > 1;
        && DecodeRecord(page) == Owned(m, if copied then Frame(f) else m.entry.frame, c)
        && cells == old(cells)[m.cell := old(cells)[m.cell] - 1][c := 1]
        && frames == if copied then old(frames)[Frame(f) := old(frames)[m.entry.frame]] else old(frames)
    {
      var originalFrame := OriginalFrame(r.entry);
      var newFrame := originalFrame;
      if cells[r.reference] > 1 {
        newFrame := f;
        frames := frames[Frame(newFrame) := frames[Frame(originalFrame)]];
      }
      cells := cells[r.reference := cells[r.reference] - 1];
      page := Unshared(r, newFrame, c);
      cells := cells[c := 1];
    }
  }
}
