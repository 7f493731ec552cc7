// The fork / fault protocol of kernel/mm/vmm.c over any number of processes, as a state machine,
// and its refinement of a machine whose fork copies every page at once.
module CopyOnWrite {

  type Pid = nat
  datatype Frame = Frame(addr: bv64)   // physical address of a page frame
  type Cell = nat        // address of a reference counter
  type Page = seq<bv8>   // contents of a frame

  const PAGE_SIZE: nat := 4096

  // A virtual page of one process; `vaddr` is the page-aligned address.
  datatype Key = Key(pid: Pid, vaddr: bv64)

  datatype Flags = Flags(present: bool, writable: bool, user: bool, noExec: bool, cow: bool)

  // A leaf page-table entry.
  datatype Pte = Pte(frame: Frame, flags: Flags)

  // struct page: paddr, flags, the reference pointer and the entry behind pml_entry.
  datatype Mapping = Mapping(frame: Frame, flags: Flags, cell: Cell, entry: Pte)

  datatype State = State(
    procs: set<Pid>,
    pages: map<Key, Mapping>,
    cells: map<Cell, int>,
    frames: map<Frame, Page>)

  ghost function Zeroed(): Page { seq(PAGE_SIZE, (i: nat) => 0 as bv8) }

  // ----- the steps -----

  // vmm_anon_map: a zeroed frame, a record and an entry with the region's flags, a counter at 1.
  ghost function AnonMap(s: State, k: Key, f: Frame, c: Cell, flags: Flags): State {
    s.(pages := s.pages[k := Mapping(f, flags, c, Pte(f, flags))],
       cells := s.cells[c := 1],
       frames := s.frames[f := Zeroed()])
  }

  function Protect(flags: Flags): Flags {
    flags.(writable := false, cow := true)
  }

  // What the fork loop leaves in the parent's record, and what it stores for the child.
  function Shared(m: Mapping): Mapping {
    m.(flags := Protect(m.flags), entry := m.entry.(flags := Protect(m.entry.flags)))
  }

  function Inherited(m: Mapping): Mapping {
    var flags := Protect(m.flags);
    Mapping(m.frame, flags, m.cell, Pte(m.frame, flags))
  }

  // One round of the loop of vmm_fork_page_table.
  function ForkPage(s: State, k: Key, child: Pid): State
    requires k in s.pages && s.pages[k].cell in s.cells
  {
    var m := s.pages[k];
    s.(pages := s.pages[k := Shared(m)][Key(child, k.vaddr) := Inherited(m)],
       cells := s.cells[m.cell := s.cells[m.cell] + 1])
  }

  // The protection-fault half of vmm_pf_handler; `f` and `c` are what the allocators would return.
  function Fault(s: State, k: Key, f: Frame, c: Cell): State
    requires k in s.pages && s.pages[k].cell in s.cells && s.pages[k].entry.frame in s.frames
  {
    var m := s.pages[k];
    if !m.entry.flags.cow then
      s.(pages := s.pages[k := m.(entry := m.entry.(flags := m.entry.flags.(writable := true)))])
    else
      var copied := s.cells[m.cell] > 1;
      var frame := if copied then f else m.entry.frame;
      s.(pages := s.pages[k := Owned(m, frame, c)],
         cells := s.cells[m.cell := s.cells[m.cell] - 1][c := 1],
         frames := if copied then s.frames[f := s.frames[m.entry.frame]] else s.frames)
  }

  function Owned(m: Mapping, frame: Frame, c: Cell): Mapping {
    Mapping(frame, m.flags, c, Pte(frame, m.entry.flags.(writable := true, noExec := false, cow := false)))
  }

  // A store by the process itself, through its entry.
  function Store(s: State, k: Key, off: nat, b: bv8): State
    requires k in s.pages && s.pages[k].entry.frame in s.frames
    requires off < |s.frames[s.pages[k].entry.frame]|
  {
    var f := s.pages[k].entry.frame;
    s.(frames := s.frames[f := s.frames[f][off := b]])
  }

  // ----- the invariant -----

  ghost function Holders(pages: map<Key, Mapping>, c: Cell): set<Key> {
    set k | k in pages && pages[k].cell == c
  }

  ghost predicate LinkedAt(m: Mapping, cells: map<Cell, int>, frames: map<Frame, Page>) {
    && m.entry.frame == m.frame
    && m.frame in frames
    && m.cell in cells
    && m.entry.flags.present
    && m.flags.present
  }

  ghost predicate Linked(pages: map<Key, Mapping>, cells: map<Cell, int>, frames: map<Frame, Page>) {
    forall k | k in pages :: LinkedAt(pages[k], cells, frames)
  }

  ghost predicate FullPages(frames: map<Frame, Page>) {
    forall f | f in frames :: |frames[f]| == PAGE_SIZE
  }

  // Every reference cell holds the number of page records that point to it.
  ghost predicate Counted(pages: map<Key, Mapping>, cells: map<Cell, int>) {
    forall c | c in cells :: cells[c] == |Holders(pages, c)|
  }

  // Two records share a frame exactly when they share a cell.
  ghost predicate Paired(pages: map<Key, Mapping>) {
    forall j, k | j in pages && k in pages :: pages[j].frame == pages[k].frame <==> pages[j].cell == pages[k].cell
  }

  // A shared page is marked copy-on-write and is not writable, for every process that maps it.
  ghost predicate Guarded(pages: map<Key, Mapping>, cells: map<Cell, int>) {
    forall k | k in pages && pages[k].cell in cells && cells[pages[k].cell] > 1 ::
      pages[k].entry.flags.cow && !pages[k].entry.flags.writable
  }

  ghost predicate Owners(procs: set<Pid>, pages: map<Key, Mapping>) {
    forall k | k in pages :: k.pid in procs
  }

  ghost predicate Inv(s: State) {
    && Owners(s.procs, s.pages)
    && Linked(s.pages, s.cells, s.frames)
    && FullPages(s.frames)
    && Counted(s.pages, s.cells)
    && Paired(s.pages)
    && Guarded(s.pages, s.cells)
  }

  // ----- counting holders -----

  lemma HoldersAdd(pages: map<Key, Mapping>, k: Key, m: Mapping, c: Cell)
    requires k !in pages
    ensures |Holders(pages[k := m], c)| == |Holders(pages, c)| + if c == m.cell then 1 else 0
  {
    if c == m.cell {
      assert Holders(pages[k := m], c) == Holders(pages, c) + {k};
    } else {
      assert Holders(pages[k := m], c) == Holders(pages, c);
    }
  }

  lemma HoldersSet(pages: map<Key, Mapping>, k: Key, m: Mapping, c: Cell)
    requires k in pages
    ensures |Holders(pages[k := m], c)| ==
            |Holders(pages, c)| - (if c == pages[k].cell then 1 else 0) + (if c == m.cell then 1 else 0)
  {
    var rest := Holders(pages, c) - {k};
    assert Holders(pages, c) == if c == pages[k].cell then rest + {k} else rest;
    assert Holders(pages[k := m], c) == if c == m.cell then rest + {k} else rest;
  }

  lemma NoHolders(pages: map<Key, Mapping>, cells: map<Cell, int>, frames: map<Frame, Page>, c: Cell)
    requires Linked(pages, cells, frames) && c !in cells
    ensures |Holders(pages, c)| == 0
  {
    assert Holders(pages, c) == {};
  }

  lemma OwnHolder(pages: map<Key, Mapping>, k: Key)
    requires k in pages
    ensures |Holders(pages, pages[k].cell)| >= 1
  {
    assert k in Holders(pages, pages[k].cell);
  }

  // A cell that two records hold is counted at least twice.
  lemma TwoHolders(pages: map<Key, Mapping>, j: Key, k: Key)
    requires j in pages && k in pages && j != k && pages[j].cell == pages[k].cell
    ensures |Holders(pages, pages[k].cell)| >= 2
  {
    var h := Holders(pages, pages[k].cell);
    var rest := h - {j, k};
    assert h == rest + {j, k};
    assert |h| == |rest| + |{j, k}|;
  }

  // ----- updating one record -----

  lemma PairedSet(pages: map<Key, Mapping>, k: Key, m: Mapping)
    requires Paired(pages)
    requires forall j | j in pages && j != k :: pages[j].frame == m.frame <==> pages[j].cell == m.cell
    ensures Paired(pages[k := m])
  {}

  lemma LinkedSet(pages: map<Key, Mapping>, k: Key, m: Mapping, cells: map<Cell, int>, frames: map<Frame, Page>,
                  cells': map<Cell, int>, frames': map<Frame, Page>)
    requires Linked(pages, cells, frames) && cells.Keys <= cells'.Keys && frames.Keys <= frames'.Keys
    requires LinkedAt(m, cells', frames')
    ensures Linked(pages[k := m], cells', frames')
  {
    forall j | j in pages && j != k
      ensures LinkedAt(pages[j], cells', frames')
    {
      assert LinkedAt(pages[j], cells, frames);
    }
  }

  lemma FullSet(frames: map<Frame, Page>, f: Frame, p: Page)
    requires FullPages(frames) && |p| == PAGE_SIZE
    ensures FullPages(frames[f := p])
  {}

  // ----- each step keeps the invariant -----

  lemma AnonMapCounted(s: State, k: Key, f: Frame, c: Cell, flags: Flags)
    requires Inv(s) && k !in s.pages && c !in s.cells
    ensures var t := AnonMap(s, k, f, c, flags); Counted(t.pages, t.cells)
  {
    var t := AnonMap(s, k, f, c, flags);
    forall d | d in t.cells
      ensures t.cells[d] == |Holders(t.pages, d)|
    {
      HoldersAdd(s.pages, k, t.pages[k], d);
      if d == c { NoHolders(s.pages, s.cells, s.frames, c); }
    }
  }

  lemma AnonMapKeeps(s: State, k: Key, f: Frame, c: Cell, flags: Flags)
    requires Inv(s) && k.pid in s.procs && k !in s.pages && f !in s.frames && c !in s.cells && flags.present
    ensures Inv(AnonMap(s, k, f, c, flags))
  {
    var t := AnonMap(s, k, f, c, flags);
    AnonMapCounted(s, k, f, c, flags);
    forall j | j in s.pages
      ensures s.pages[j].frame != f && s.pages[j].cell != c
    {
      assert LinkedAt(s.pages[j], s.cells, s.frames);
    }
    PairedSet(s.pages, k, t.pages[k]);
    LinkedSet(s.pages, k, t.pages[k], s.cells, s.frames, t.cells, t.frames);
    FullSet(s.frames, f, Zeroed());
  }

  lemma ForkPageCounted(s: State, k: Key, child: Pid)
    requires Inv(s) && k in s.pages && s.pages[k].cell in s.cells && Key(child, k.vaddr) !in s.pages
    ensures var t := ForkPage(s, k, child); Counted(t.pages, t.cells)
  {
    var t := ForkPage(s, k, child);
    var m := s.pages[k];
    forall d | d in t.cells
      ensures t.cells[d] == |Holders(t.pages, d)|
    {
      HoldersSet(s.pages, k, Shared(m), d);
      HoldersAdd(s.pages[k := Shared(m)], Key(child, k.vaddr), Inherited(m), d);
    }
  }

  lemma ForkPageGuarded(s: State, k: Key, child: Pid)
    requires Inv(s) && k in s.pages && s.pages[k].cell in s.cells && Key(child, k.vaddr) !in s.pages
    ensures var t := ForkPage(s, k, child); Guarded(t.pages, t.cells)
  {
    var t := ForkPage(s, k, child);
    forall j | j in t.pages && t.pages[j].cell in t.cells && t.cells[t.pages[j].cell] > 1
      ensures t.pages[j].entry.flags.cow && !t.pages[j].entry.flags.writable
    {
      if j != k && j != Key(child, k.vaddr) && s.pages[j].cell == s.pages[k].cell {
        TwoHolders(s.pages, j, k);
      }
    }
  }

  lemma ForkPageKeeps(s: State, k: Key, child: Pid)
    requires Inv(s) && k in s.pages && s.pages[k].cell in s.cells
    requires child in s.procs && Key(child, k.vaddr) !in s.pages
    ensures Inv(ForkPage(s, k, child))
  {
    var t := ForkPage(s, k, child);
    var m := s.pages[k];
    ForkPageCounted(s, k, child);
    ForkPageGuarded(s, k, child);
    assert LinkedAt(m, s.cells, s.frames);
    LinkedSet(s.pages, k, Shared(m), s.cells, s.frames, t.cells, t.frames);
    LinkedSet(s.pages[k := Shared(m)], Key(child, k.vaddr), Inherited(m), t.cells, t.frames, t.cells, t.frames);
    PairedSet(s.pages, k, Shared(m));
    PairedSet(s.pages[k := Shared(m)], Key(child, k.vaddr), Inherited(m));
  }

  lemma FaultCounted(s: State, k: Key, f: Frame, c: Cell)
    requires Inv(s) && k in s.pages && LinkedAt(s.pages[k], s.cells, s.frames) && c !in s.cells
    ensures var t := Fault(s, k, f, c); Counted(t.pages, t.cells)
  {
    var t := Fault(s, k, f, c);
    forall d | d in t.cells
      ensures t.cells[d] == |Holders(t.pages, d)|
    {
      HoldersSet(s.pages, k, t.pages[k], d);
      if d == c { NoHolders(s.pages, s.cells, s.frames, c); }
    }
  }

  lemma FaultPaired(s: State, k: Key, f: Frame, c: Cell)
    requires Inv(s) && k in s.pages && LinkedAt(s.pages[k], s.cells, s.frames) && f !in s.frames && c !in s.cells
    ensures Paired(Fault(s, k, f, c).pages)
  {
    var m := Fault(s, k, f, c).pages[k];
    forall j | j in s.pages && j != k
      ensures s.pages[j].frame == m.frame <==> s.pages[j].cell == m.cell
    {
      assert LinkedAt(s.pages[j], s.cells, s.frames);
      if s.pages[j].cell == s.pages[k].cell { TwoHolders(s.pages, j, k); }
    }
    PairedSet(s.pages, k, m);
  }

  lemma FaultGuarded(s: State, k: Key, f: Frame, c: Cell)
    requires Inv(s) && k in s.pages && LinkedAt(s.pages[k], s.cells, s.frames) && c !in s.cells
    ensures var t := Fault(s, k, f, c); Guarded(t.pages, t.cells)
  {
    var t := Fault(s, k, f, c);
    forall j | j in t.pages && t.pages[j].cell in t.cells && t.cells[t.pages[j].cell] > 1
      ensures t.pages[j].entry.flags.cow && !t.pages[j].entry.flags.writable
    {
      assert j != k ==> LinkedAt(s.pages[j], s.cells, s.frames);
    }
  }

  lemma FaultKeeps(s: State, k: Key, f: Frame, c: Cell)
    requires Inv(s) && k in s.pages && LinkedAt(s.pages[k], s.cells, s.frames) && f !in s.frames && c !in s.cells
    ensures Inv(Fault(s, k, f, c))
  {
    var t := Fault(s, k, f, c);
    FaultCounted(s, k, f, c);
    FaultPaired(s, k, f, c);
    FaultGuarded(s, k, f, c);
    LinkedSet(s.pages, k, t.pages[k], s.cells, s.frames, t.cells, t.frames);
    FullSet(s.frames, f, s.frames[s.pages[k].entry.frame]);
  }

  // ----- what a process reads -----

  ghost function Seen(pages: map<Key, Mapping>, frames: map<Frame, Page>): map<Key, Page> {
    map k | k in pages && pages[k].entry.frame in frames :: frames[pages[k].entry.frame]
  }

  ghost function View(s: State): map<Key, Page> {
    Seen(s.pages, s.frames)
  }

  // Under the invariant every recorded page is visible.
  lemma ViewKeys(s: State)
    requires Linked(s.pages, s.cells, s.frames)
    ensures View(s).Keys == s.pages.Keys
  {
    forall k | k in s.pages
      ensures k in View(s)
    {
      assert LinkedAt(s.pages[k], s.cells, s.frames);
    }
  }

  // Two processes that can both store to a frame do not exist: a writable entry is the frame's only one.
  lemma WritableIsAlone(s: State, k: Key, j: Key)
    requires Inv(s) && k in s.pages && j in s.pages && j != k && s.pages[k].entry.flags.writable
    ensures s.pages[j].entry.frame != s.pages[k].entry.frame
  {
    assert LinkedAt(s.pages[k], s.cells, s.frames) && LinkedAt(s.pages[j], s.cells, s.frames);
    WritableCountsOne(s, k);
    if s.pages[j].cell == s.pages[k].cell { TwoHolders(s.pages, j, k); }
  }

  lemma WritableCountsOne(s: State, k: Key)
    requires Inv(s) && k in s.pages && s.pages[k].entry.flags.writable
    ensures s.pages[k].cell in s.cells && s.cells[s.pages[k].cell] == 1
  {
    assert LinkedAt(s.pages[k], s.cells, s.frames);
    OwnHolder(s.pages, k);
  }

  lemma StoreKeeps(s: State, k: Key, off: nat, b: bv8)
    requires Inv(s) && k in s.pages && LinkedAt(s.pages[k], s.cells, s.frames) && off < PAGE_SIZE
    ensures Inv(Store(s, k, off, b))
  {
    var f := s.pages[k].entry.frame;
    var t := Store(s, k, off, b);
    FullSet(s.frames, f, s.frames[f][off := b]);
    LinkedSet(s.pages, k, s.pages[k], s.cells, s.frames, t.cells, t.frames);
    assert s.pages[k := s.pages[k]] == s.pages;
  }

  lemma StoreSeen(pages: map<Key, Mapping>, frames: map<Frame, Page>, k: Key, p: Page)
    requires k in pages && pages[k].entry.frame in frames
    requires forall j | j in pages && j != k :: pages[j].entry.frame != pages[k].entry.frame
    ensures Seen(pages, frames[pages[k].entry.frame := p]) == Seen(pages, frames)[k := p]
  {}

  lemma StoreView(s: State, k: Key, off: nat, b: bv8)
    requires Inv(s) && k in s.pages && LinkedAt(s.pages[k], s.cells, s.frames) && off < PAGE_SIZE
    requires s.pages[k].entry.flags.writable
    ensures View(Store(s, k, off, b)) == View(s)[k := View(s)[k][off := b]]
  {
    forall j | j in s.pages && j != k
      ensures s.pages[j].entry.frame != s.pages[k].entry.frame
    {
      WritableIsAlone(s, k, j);
    }
    StoreSeen(s.pages, s.frames, k, s.frames[s.pages[k].entry.frame][off := b]);
  }

  lemma FaultView(s: State, k: Key, f: Frame, c: Cell)
    requires k in s.pages && LinkedAt(s.pages[k], s.cells, s.frames) && Linked(s.pages, s.cells, s.frames)
    requires f !in s.frames
    ensures View(Fault(s, k, f, c)) == View(s)
  {
    var t := Fault(s, k, f, c);
    ViewKeys(s);
    forall j | j in s.pages
      ensures j in View(t) && View(t)[j] == View(s)[j]
    {
      assert LinkedAt(s.pages[j], s.cells, s.frames);
      FaultFrame(s, k, f, c, j);
    }
  }

  // Every page keeps its bytes, on its old frame or on the copy.
  lemma FaultFrame(s: State, k: Key, f: Frame, c: Cell, j: Key)
    requires k in s.pages && LinkedAt(s.pages[k], s.cells, s.frames) && f !in s.frames
    requires j in s.pages && s.pages[j].entry.frame in s.frames
    ensures var t := Fault(s, k, f, c);
      && t.pages.Keys == s.pages.Keys && t.pages[j].entry.frame in t.frames
      && t.frames[t.pages[j].entry.frame] == s.frames[s.pages[j].entry.frame]
  {}

  // After the handler returns, the faulting store can be retried: the entry is writable.
  lemma FaultGrantsWrite(s: State, k: Key, f: Frame, c: Cell)
    requires Inv(s) && k in s.pages && LinkedAt(s.pages[k], s.cells, s.frames) && f !in s.frames && c !in s.cells
    ensures var t := Fault(s, k, f, c);
      && k in t.pages && t.pages[k].entry.flags.writable && !t.pages[k].entry.flags.cow
      && t.pages[k].entry.flags.user == s.pages[k].entry.flags.user
      && t.pages[k].cell in t.cells && t.cells[t.pages[k].cell] == 1
  {
    FaultAccess(s, k, f, c);
    FaultKeeps(s, k, f, c);
    var t := Fault(s, k, f, c);
    assert LinkedAt(t.pages[k], t.cells, t.frames);
    OwnHolder(t.pages, k);
  }

  // A fresh page: its entry and its record have the region's flags, and no other page changes.
  lemma AnonMapAccess(s: State, k: Key, f: Frame, c: Cell, flags: Flags)
    ensures var t := AnonMap(s, k, f, c, flags);
      && t.pages.Keys == s.pages.Keys + {k} && t.procs == s.procs
      && (forall j | j in s.pages && j != k :: t.pages[j] == s.pages[j])
      && t.pages[k].entry.flags == flags && t.pages[k].flags == flags
      && t.pages[k].entry.frame == t.pages[k].frame == f && t.pages[k].cell == c
  {}

  // What the handler leaves of the entry: user access and presence stay, writing is granted, and only a page that was
  // marked loses the mark and with it the no-execute bit. No other page changes, nor do the flags of the record.
  lemma FaultAccess(s: State, k: Key, f: Frame, c: Cell)
    requires k in s.pages && s.pages[k].cell in s.cells && s.pages[k].entry.frame in s.frames
    ensures var t := Fault(s, k, f, c);
      && t.pages.Keys == s.pages.Keys && t.procs == s.procs
      && (forall j | j in s.pages && j != k :: t.pages[j] == s.pages[j])
      && var before, after := s.pages[k].entry.flags, t.pages[k].entry.flags;
      && after.user == before.user && after.present == before.present
      && after.writable && !after.cow && after.noExec == (before.noExec && !before.cow)
      && t.pages[k].flags == s.pages[k].flags
  {}

  lemma AnonMapView(s: State, k: Key, f: Frame, c: Cell, flags: Flags)
    requires Linked(s.pages, s.cells, s.frames) && k !in s.pages && f !in s.frames
    ensures View(AnonMap(s, k, f, c, flags)) == View(s)[k := Zeroed()]
  {
    forall j | j in s.pages
      ensures s.pages[j].entry.frame != f
    {
      assert LinkedAt(s.pages[j], s.cells, s.frames);
    }
  }

  // ----- fork -----

  // The loop of vmm_fork_page_table, in the order in which the record table lists the parent's pages.
  function ForkPages(s: State, parent: Pid, child: Pid, order: seq<bv64>): State
  {
    if order == [] then s
    else
      var t := ForkPages(s, parent, child, order[..|order| - 1]);
      var k := Key(parent, order[|order| - 1]);
      if k in t.pages && t.pages[k].cell in t.cells then ForkPage(t, k, child) else t
  }

  function Fork(s: State, parent: Pid, child: Pid, order: seq<bv64>): State {
    ForkPages(s.(procs := s.procs + {child}), parent, child, order)
  }

  ghost predicate NoDup(order: seq<bv64>) {
    forall i, j | 0 <= i < j < |order| :: order[i] != order[j]
  }

  // `order` lists each page record of the parent once.
  ghost predicate Lists(s: State, parent: Pid, order: seq<bv64>) {
    && NoDup(order)
    && (forall v | v in order :: Key(parent, v) in s.pages)
    && (forall k | k in s.pages && k.pid == parent :: k.vaddr in order)
  }

  // Both sides of a shared page: neither may write, both are marked, and who may use it stays. The child gets what the
  // record says of execution, which a write fault does not change.
  lemma ForkPageAccess(s: State, k: Key, child: Pid)
    requires k in s.pages && s.pages[k].cell in s.cells && child != k.pid
    ensures var t, j := ForkPage(s, k, child), Key(child, k.vaddr);
      && t.pages.Keys == s.pages.Keys + {j} && t.procs == s.procs
      && (forall i | i in s.pages && i != k && i != j :: t.pages[i] == s.pages[i])
      && var m, parent, heir := s.pages[k], t.pages[k], t.pages[j];
      && parent.entry.flags == Flags(m.entry.flags.present, false, m.entry.flags.user, m.entry.flags.noExec, true)
      && heir.entry.flags == Flags(m.flags.present, false, m.flags.user, m.flags.noExec, true)
      && parent.flags == heir.flags == heir.entry.flags
      && parent.entry.frame == m.entry.frame && heir.entry.frame == heir.frame == parent.frame == m.frame
      && parent.cell == heir.cell == m.cell
  {}

  // The state after the first |order| rounds, seen from the state before the loop.
  ghost predicate Forked(s: State, t: State, parent: Pid, child: Pid, order: seq<bv64>) {
    && t.procs == s.procs && t.frames == s.frames
    && (forall k | k in s.pages :: k in t.pages && t.pages[k].entry.frame == s.pages[k].entry.frame)
    && (forall v | v in order :: Key(parent, v) in s.pages && Key(child, v) in t.pages
          && t.pages[Key(child, v)].entry.frame == s.pages[Key(parent, v)].entry.frame)
    && (forall k | k in t.pages :: k in s.pages || (k.pid == child && k.vaddr in order))
  }

  lemma ForkPageForked(s: State, t: State, parent: Pid, child: Pid, init: seq<bv64>, v: bv64)
    requires Forked(s, t, parent, child, init) && parent != child
    requires Key(parent, v) in s.pages && Key(parent, v) in t.pages && t.pages[Key(parent, v)].cell in t.cells
    requires t.pages[Key(parent, v)].entry.frame == t.pages[Key(parent, v)].frame
    requires forall k | k in s.pages :: k.pid != child
    ensures Forked(s, ForkPage(t, Key(parent, v), child), parent, child, init + [v])
  {}

  lemma ForkRound(s: State, t: State, parent: Pid, child: Pid, init: seq<bv64>, v: bv64)
    requires Inv(t) && Forked(s, t, parent, child, init) && child in s.procs && parent != child
    requires Key(parent, v) in s.pages && v !in init
    requires forall k | k in s.pages :: k.pid != child
    ensures Key(parent, v) in t.pages && t.pages[Key(parent, v)].cell in t.cells
    ensures Inv(ForkPage(t, Key(parent, v), child))
    ensures Forked(s, ForkPage(t, Key(parent, v), child), parent, child, init + [v])
  {
    var k := Key(parent, v);
    assert k in t.pages && LinkedAt(t.pages[k], t.cells, t.frames);
    assert Key(child, v) !in t.pages;
    ForkPageKeeps(t, k, child);
    ForkPageForked(s, t, parent, child, init, v);
  }

  lemma {:induction false} ForkPagesKeep(s: State, parent: Pid, child: Pid, order: seq<bv64>)
    requires Inv(s) && child in s.procs && parent != child && NoDup(order)
    requires forall v | v in order :: Key(parent, v) in s.pages
    requires forall k | k in s.pages :: k.pid != child
    ensures Inv(ForkPages(s, parent, child, order))
    ensures Forked(s, ForkPages(s, parent, child, order), parent, child, order)
  {
    if order != [] {
      var init, v := order[..|order| - 1], order[|order| - 1];
      assert order == init + [v];
      assert v in order;
      ForkPagesKeep(s, parent, child, init);
      ForkRound(s, ForkPages(s, parent, child, init), parent, child, init, v);
      ForkPagesLast(s, parent, child, init, v);
    }
  }

  lemma ForkPagesLast(s: State, parent: Pid, child: Pid, init: seq<bv64>, v: bv64)
    requires var t, k := ForkPages(s, parent, child, init), Key(parent, v); k in t.pages && t.pages[k].cell in t.cells
    ensures ForkPages(s, parent, child, init + [v]) ==
      ForkPage(ForkPages(s, parent, child, init), Key(parent, v), child)
  {
    assert (init + [v])[..|init|] == init;
  }

  lemma ForkPagesLive(s: State, parent: Pid, child: Pid, order: seq<bv64>, i: nat)
    requires Inv(s) && child in s.procs && parent != child && Lists(s, parent, order) && i < |order|
    requires forall k | k in s.pages :: k.pid != child
    ensures var t, k := ForkPages(s, parent, child, order[..i]), Key(parent, order[i]);
      k in t.pages && t.pages[k].cell in t.cells
  {
    ForkPagesKeep(s, parent, child, order[..i]);
    var t, k := ForkPages(s, parent, child, order[..i]), Key(parent, order[i]);
    assert order[i] in order;
    assert k in t.pages && LinkedAt(t.pages[k], t.cells, t.frames);
  }

  // Round `i` of the loop meets a live record of the parent.
  lemma ForkPagesNext(s: State, parent: Pid, child: Pid, order: seq<bv64>, i: nat)
    requires Inv(s) && child in s.procs && parent != child && Lists(s, parent, order) && i < |order|
    requires forall k | k in s.pages :: k.pid != child
    ensures var t, k := ForkPages(s, parent, child, order[..i]), Key(parent, order[i]);
      && k in t.pages && t.pages[k].cell in t.cells
      && ForkPages(s, parent, child, order[..i + 1]) == ForkPage(t, k, child)
  {
    assert order[..i + 1] == order[..i] + [order[i]];
    ForkPagesLive(s, parent, child, order, i);
    ForkPagesLast(s, parent, child, order[..i], order[i]);
  }

  // The child has no page there yet.
  lemma ForkPagesNew(s: State, parent: Pid, child: Pid, order: seq<bv64>, i: nat)
    requires Inv(s) && child in s.procs && parent != child && Lists(s, parent, order) && i < |order|
    requires forall k | k in s.pages :: k.pid != child
    ensures Key(child, order[i]) !in ForkPages(s, parent, child, order[..i]).pages
  {
    ForkPagesKeep(s, parent, child, order[..i]);
    assert order[i] !in order[..i];
  }

  // ----- the eager machine -----

  // A machine whose fork copies every page of the parent at once; it has no frames and no counters.
  datatype Eager = Eager(procs: set<Pid>, mem: map<Key, Page>)

  ghost function EagerFork(e: Eager, parent: Pid, child: Pid): Eager {
    var copies := set k | k in e.mem && k.pid == parent :: Key(child, k.vaddr);
    Eager(e.procs + {child},
      map k | k in e.mem.Keys + copies :: if k in copies then e.mem[Key(parent, k.vaddr)] else e.mem[k])
  }

  ghost function Abs(s: State): Eager {
    Eager(s.procs, View(s))
  }

  lemma ForkedKeys(s: State, t: State, parent: Pid, child: Pid, order: seq<bv64>)
    requires Forked(s, t, parent, child, order) && Lists(s, parent, order)
    ensures t.pages.Keys == s.pages.Keys + (set k | k in s.pages && k.pid == parent :: Key(child, k.vaddr))
  {
    forall k | k in t.pages && k !in s.pages
      ensures exists j :: j in s.pages && j.pid == parent && k == Key(child, j.vaddr)
    {
      assert Key(parent, k.vaddr) in s.pages && k == Key(child, Key(parent, k.vaddr).vaddr);
    }
  }

  lemma ForkedView(s: State, t: State, parent: Pid, child: Pid, order: seq<bv64>)
    requires View(s).Keys == s.pages.Keys && View(t).Keys == t.pages.Keys
    requires Forked(s, t, parent, child, order) && Lists(s, parent, order) && parent != child
    requires forall k | k in s.pages :: k.pid != child
    ensures View(t) == EagerFork(Abs(s), parent, child).mem
  {
    ForkedKeys(s, t, parent, child, order);
    var e := EagerFork(Abs(s), parent, child).mem;
    forall k | k in t.pages
      ensures k in e && View(t)[k] == e[k]
    {
      if k.pid == child { assert k.vaddr in order; }
    }
  }

  lemma AddProcess(s: State, child: Pid)
    requires Inv(s) && child !in s.procs
    ensures Inv(s.(procs := s.procs + {child}))
    ensures forall k | k in s.pages :: k.pid != child
  {}

  lemma ForkKeeps(s: State, parent: Pid, child: Pid, order: seq<bv64>)
    requires Inv(s) && parent in s.procs && child !in s.procs && Lists(s, parent, order)
    ensures Inv(Fork(s, parent, child, order))
    ensures Forked(s.(procs := s.procs + {child}), Fork(s, parent, child, order), parent, child, order)
  {
    AddProcess(s, child);
    ForkPagesKeep(s.(procs := s.procs + {child}), parent, child, order);
  }

  lemma ViewIgnoresProcs(s: State, procs: set<Pid>)
    ensures View(s.(procs := procs)) == View(s)
  {}

  // One fork of the lazy machine is one fork of the eager machine.
  lemma ForkRefines(s: State, parent: Pid, child: Pid, order: seq<bv64>)
    requires Linked(s.pages, s.cells, s.frames) && Owners(s.procs, s.pages)
    requires parent in s.procs && child !in s.procs && Lists(s, parent, order)
    requires Forked(s.(procs := s.procs + {child}), Fork(s, parent, child, order), parent, child, order)
    requires var t := Fork(s, parent, child, order); Linked(t.pages, t.cells, t.frames)
    ensures Abs(Fork(s, parent, child, order)) == EagerFork(Abs(s), parent, child)
  {
    var s0 := s.(procs := s.procs + {child});
    var t := Fork(s, parent, child, order);
    ViewKeys(s0);
    ViewKeys(t);
    assert Lists(s0, parent, order);
    ForkedView(s0, t, parent, child, order);
    ViewIgnoresProcs(s, s0.procs);
  }

  // ----- runs -----

  datatype Event =
    | AnonFault(k: Key, f: Frame, c: Cell, flags: Flags)
    | ForkCall(parent: Pid, child: Pid, order: seq<bv64>)
    | WriteFault(k: Key, f: Frame, c: Cell)
    | UserStore(k: Key, off: nat, b: bv8)

  // When an event can happen. Frames and cells come fresh from the allocators; a user store needs a
  // present, writable entry, otherwise the processor raises the corresponding fault instead.
  ghost predicate Enabled(s: State, e: Event) {
    match e
    case AnonFault(k, f, c, flags) =>
      k.pid in s.procs && k !in s.pages && f !in s.frames && c !in s.cells && flags.present && !flags.cow
    case ForkCall(parent, child, order) =>
      parent in s.procs && child !in s.procs && Lists(s, parent, order)
    case WriteFault(k, f, c) =>
      k in s.pages && LinkedAt(s.pages[k], s.cells, s.frames) && f !in s.frames && c !in s.cells
    case UserStore(k, off, b) =>
      && k in s.pages && LinkedAt(s.pages[k], s.cells, s.frames) && FullPages(s.frames)
      && s.pages[k].entry.flags.writable && off < PAGE_SIZE
  }

  ghost function Next(s: State, e: Event): State
    requires Enabled(s, e)
  {
    match e
    case AnonFault(k, f, c, flags) => AnonMap(s, k, f, c, flags)
    case ForkCall(parent, child, order) => Fork(s, parent, child, order)
    case WriteFault(k, f, c) => Fault(s, k, f, c)
    case UserStore(k, off, b) => Store(s, k, off, b)
  }

  ghost function EagerNext(a: Eager, e: Event): Eager {
    match e
    case AnonFault(k, f, c, flags) => a.(mem := a.mem[k := Zeroed()])
    case ForkCall(parent, child, order) => EagerFork(a, parent, child)
    case WriteFault(k, f, c) => a
    case UserStore(k, off, b) =>
      if k in a.mem && off < |a.mem[k]| then a.(mem := a.mem[k := a.mem[k][off := b]]) else a
  }

  lemma StepRefines(s: State, e: Event)
    requires Inv(s) && Enabled(s, e)
    ensures Inv(Next(s, e))
    ensures Abs(Next(s, e)) == EagerNext(Abs(s), e)
  {
    match e
    case AnonFault(k, f, c, flags) =>
      AnonMapKeeps(s, k, f, c, flags);
      AnonMapView(s, k, f, c, flags);
    case ForkCall(parent, child, order) =>
      ForkKeeps(s, parent, child, order);
      ForkRefines(s, parent, child, order);
    case WriteFault(k, f, c) =>
      FaultKeeps(s, k, f, c);
      FaultView(s, k, f, c);
    case UserStore(k, off, b) =>
      StoreKeeps(s, k, off, b);
      StoreView(s, k, off, b);
  }

  // The runs that start with some processes and no private page.
  ghost function Start(procs: set<Pid>): State {
    State(procs, map[], map[], map[])
  }

  ghost predicate IsRun(run: seq<State>, events: seq<Event>, procs: set<Pid>) {
    && |run| == |events| + 1
    && run[0] == Start(procs)
    && forall i | 0 <= i < |events| :: StepAt(run, events, i)
  }

  ghost predicate StepAt(run: seq<State>, events: seq<Event>, i: nat)
    requires |run| == |events| + 1 && i < |events|
  {
    Enabled(run[i], events[i]) && run[i + 1] == Next(run[i], events[i])
  }

  ghost function EagerRun(procs: set<Pid>, events: seq<Event>): Eager {
    if events == [] then Eager(procs, map[])
    else EagerNext(EagerRun(procs, events[..|events| - 1]), events[|events| - 1])
  }

  lemma StartRefines(procs: set<Pid>)
    ensures Inv(Start(procs)) && Abs(Start(procs)) == Eager(procs, map[])
  {
    assert View(Start(procs)) == map[];
  }

  lemma StepAtRefines(run: seq<State>, events: seq<Event>, i: nat)
    requires |run| == |events| + 1 && i < |events| && StepAt(run, events, i) && Inv(run[i])
    ensures Inv(run[i + 1]) && Abs(run[i + 1]) == EagerNext(Abs(run[i]), events[i])
  {
    StepRefines(run[i], events[i]);
  }

  lemma EagerRunNext(procs: set<Pid>, events: seq<Event>, i: nat)
    requires i < |events|
    ensures EagerRun(procs, events[..i + 1]) == EagerNext(EagerRun(procs, events[..i]), events[i])
  {
    assert events[..i + 1][..i] == events[..i] && events[..i + 1][i] == events[i];
  }

  // Copy-on-write refines eager copy: after any number of steps, in any interleaving, every process sees
  // the memory it would see had each fork copied every page, and the reference invariant holds.
  lemma {:induction false} RunRefines(run: seq<State>, events: seq<Event>, procs: set<Pid>, n: nat)
    requires IsRun(run, events, procs) && n <= |events|
    ensures Inv(run[n])
    ensures Abs(run[n]) == EagerRun(procs, events[..n])
  {
    if n == 0 {
      StartRefines(procs);
    } else {
      RunRefines(run, events, procs, n - 1);
      assert StepAt(run, events, n - 1);
      StepAtRefines(run, events, n - 1);
      EagerRunNext(procs, events, n - 1);
    }
  }

  // The byte a process loads in any reachable state is the eager machine's byte.
  lemma LoadsAgree(run: seq<State>, events: seq<Event>, procs: set<Pid>, n: nat, k: Key, off: nat)
    requires IsRun(run, events, procs) && n <= |events| && k in run[n].pages && off < PAGE_SIZE
    ensures var s, a := run[n], EagerRun(procs, events[..n]);
      && s.pages[k].entry.flags.present && s.pages[k].entry.frame in s.frames
      && |s.frames[s.pages[k].entry.frame]| == PAGE_SIZE
      && k in a.mem && |a.mem[k]| == PAGE_SIZE
      && s.frames[s.pages[k].entry.frame][off] == a.mem[k][off]
  {
    RunRefines(run, events, procs, n);
    var s := run[n];
    assert LinkedAt(s.pages[k], s.cells, s.frames);
    ViewKeys(s);
    assert View(s)[k] == s.frames[s.pages[k].entry.frame];
  }

  // ----- who may use a page -----

  // What the protection of its region granted a page when it was first mapped.
  datatype Grant = Grant(user: bool, noExec: bool)

  ghost function ForkGrants(g: map<Key, Grant>, parent: Pid, child: Pid): map<Key, Grant> {
    var copies := set k | k in g && k.pid == parent :: Key(child, k.vaddr);
    map k | k in g.Keys + copies :: if k in copies then g[Key(parent, k.vaddr)] else g[k]
  }

  // A fork hands the grants on; no fault and no store changes one.
  ghost function GrantNext(g: map<Key, Grant>, e: Event): map<Key, Grant> {
    match e
    case AnonFault(k, f, c, flags) => g[k := Grant(flags.user, flags.noExec)]
    case ForkCall(parent, child, order) => ForkGrants(g, parent, child)
    case WriteFault(k, f, c) => g
    case UserStore(k, off, b) => g
  }

  ghost function GrantsAfter(events: seq<Event>): map<Key, Grant> {
    if events == [] then map[] else GrantNext(GrantsAfter(events[..|events| - 1]), events[|events| - 1])
  }

  // The entry is present and lets user code in as granted; it may have become executable, the record has not.
  ghost predicate Honours(m: Mapping, g: Grant) {
    && m.entry.flags.present && m.flags.present && m.entry.flags.user == m.flags.user == g.user
    && m.flags.noExec == g.noExec && (m.entry.flags.noExec ==> g.noExec)
  }

  ghost predicate HonoursAt(pages: map<Key, Mapping>, g: map<Key, Grant>, k: Key)
    requires k in pages && k in g
  {
    Honours(pages[k], g[k])
  }

  ghost predicate AllHonoured(pages: map<Key, Mapping>, g: map<Key, Grant>) {
    && pages.Keys == g.Keys
    && forall k {:trigger HonoursAt(pages, g, k)} | k in pages && k in g :: HonoursAt(pages, g, k)
  }

  lemma SetHonoured(pages: map<Key, Mapping>, g: map<Key, Grant>, k: Key, m: Mapping, h: Grant)
    requires AllHonoured(pages, g) && Honours(m, h)
    ensures AllHonoured(pages[k := m], g[k := h])
  {
    var pages', g' := pages[k := m], g[k := h];
    forall j | j in pages' && j in g'
      ensures HonoursAt(pages', g', j)
    {
      if j != k { assert HonoursAt(pages, g, j); }
    }
  }

  // The grants after some rounds of the fork loop.
  ghost function SharedGrants(g: map<Key, Grant>, parent: Pid, child: Pid, order: seq<bv64>): map<Key, Grant> {
    if order == [] then g
    else
      var h := SharedGrants(g, parent, child, order[..|order| - 1]);
      var k := Key(parent, order[|order| - 1]);
      if k in h then h[Key(child, k.vaddr) := h[k]] else h
  }

  lemma ForkPageHonoured(s: State, g: map<Key, Grant>, k: Key, child: Pid)
    requires AllHonoured(s.pages, g) && k in s.pages && s.pages[k].cell in s.cells && child != k.pid
    ensures k in g && AllHonoured(ForkPage(s, k, child).pages, g[Key(child, k.vaddr) := g[k]])
  {
    ForkPageAccess(s, k, child);
    var t, j := ForkPage(s, k, child), Key(child, k.vaddr);
    assert HonoursAt(s.pages, g, k);
    SetHonoured(s.pages, g, k, t.pages[k], g[k]);
    assert g[k := g[k]] == g;
    SetHonoured(s.pages[k := t.pages[k]], g, j, t.pages[j], g[k]);
    assert t.pages == s.pages[k := t.pages[k]][j := t.pages[j]];
  }

  // Round i of the loop.
  lemma ForkRoundHonoured(s: State, g: map<Key, Grant>, parent: Pid, child: Pid, order: seq<bv64>, i: nat)
    requires Inv(s) && child in s.procs && parent != child && Lists(s, parent, order) && i < |order|
    requires forall k | k in s.pages :: k.pid != child
    requires AllHonoured(ForkPages(s, parent, child, order[..i]).pages, g)
    ensures Key(parent, order[i]) in g
    ensures AllHonoured(ForkPages(s, parent, child, order[..i + 1]).pages,
                        g[Key(child, order[i]) := g[Key(parent, order[i])]])
  {
    ForkPagesNext(s, parent, child, order, i);
    ForkPageHonoured(ForkPages(s, parent, child, order[..i]), g, Key(parent, order[i]), child);
  }

  lemma {:induction false} ForkPagesHonoured(s: State, g: map<Key, Grant>, parent: Pid, child: Pid, order: seq<bv64>,
                                             i: nat)
    requires Inv(s) && child in s.procs && parent != child && Lists(s, parent, order) && i <= |order|
    requires AllHonoured(s.pages, g) && forall k | k in s.pages :: k.pid != child
    ensures AllHonoured(ForkPages(s, parent, child, order[..i]).pages, SharedGrants(g, parent, child, order[..i]))
  {
    if i > 0 {
      ForkPagesHonoured(s, g, parent, child, order, i - 1);
      var h := SharedGrants(g, parent, child, order[..i - 1]);
      ForkRoundHonoured(s, h, parent, child, order, i - 1);
      assert order[..i][..i - 1] == order[..i - 1] && order[..i][i - 1] == order[i - 1];
    } else {
      assert order[..0] == [];
    }
  }

  lemma {:induction false} SharedGrantsAre(g: map<Key, Grant>, parent: Pid, child: Pid, order: seq<bv64>)
    requires parent != child && (forall k | k in g :: k.pid != child) && forall v | v in order :: Key(parent, v) in g
    ensures var h := SharedGrants(g, parent, child, order);
      && (forall k | k in g :: k in h && h[k] == g[k])
      && (forall v | v in order :: Key(child, v) in h && h[Key(child, v)] == g[Key(parent, v)])
      && (forall k | k in h :: k in g || (k.pid == child && k.vaddr in order))
  {
    if order != [] {
      var init, v := order[..|order| - 1], order[|order| - 1];
      assert order == init + [v] && v in order;
      SharedGrantsAre(g, parent, child, init);
    }
  }

  lemma SharedIsFork(g: map<Key, Grant>, parent: Pid, child: Pid, order: seq<bv64>)
    requires parent != child && (forall k | k in g :: k.pid != child) && (forall v | v in order :: Key(parent, v) in g)
    requires forall k | k in g && k.pid == parent :: k.vaddr in order
    ensures SharedGrants(g, parent, child, order) == ForkGrants(g, parent, child)
  {
    SharedGrantsAre(g, parent, child, order);
    var h, f := SharedGrants(g, parent, child, order), ForkGrants(g, parent, child);
    forall k | k in h
      ensures k in f && f[k] == h[k]
    {
      if k !in g { assert Key(parent, k.vaddr) in g && k == Key(child, Key(parent, k.vaddr).vaddr); }
    }
    forall k | k in f
      ensures k in h
    {
      if k !in g {
        var j :| j in g && j.pid == parent && k == Key(child, j.vaddr);
        assert j.vaddr in order;
      }
    }
  }

  lemma ForkHonoured(s: State, g: map<Key, Grant>, parent: Pid, child: Pid, order: seq<bv64>)
    requires Inv(s) && parent in s.procs && child !in s.procs && Lists(s, parent, order) && AllHonoured(s.pages, g)
    ensures AllHonoured(Fork(s, parent, child, order).pages, ForkGrants(g, parent, child))
  {
    AddProcess(s, child);
    ForkPagesHonoured(s.(procs := s.procs + {child}), g, parent, child, order, |order|);
    assert order[..|order|] == order;
    SharedIsFork(g, parent, child, order);
  }

  lemma FaultHonoured(s: State, g: map<Key, Grant>, k: Key, f: Frame, c: Cell)
    requires AllHonoured(s.pages, g)
    requires k in s.pages && s.pages[k].cell in s.cells && s.pages[k].entry.frame in s.frames
    ensures AllHonoured(Fault(s, k, f, c).pages, g)
  {
    FaultAccess(s, k, f, c);
    var t := Fault(s, k, f, c);
    assert HonoursAt(s.pages, g, k);
    SetHonoured(s.pages, g, k, t.pages[k], g[k]);
    assert g[k := g[k]] == g && t.pages == s.pages[k := t.pages[k]];
  }

  lemma AnonHonoured(s: State, g: map<Key, Grant>, k: Key, f: Frame, c: Cell, flags: Flags)
    requires AllHonoured(s.pages, g) && flags.present
    ensures AllHonoured(AnonMap(s, k, f, c, flags).pages, g[k := Grant(flags.user, flags.noExec)])
  {
    SetHonoured(s.pages, g, k, AnonMap(s, k, f, c, flags).pages[k], Grant(flags.user, flags.noExec));
  }

  lemma StepHonoured(s: State, e: Event, g: map<Key, Grant>)
    requires Inv(s) && Enabled(s, e) && AllHonoured(s.pages, g)
    ensures AllHonoured(Next(s, e).pages, GrantNext(g, e))
  {
    match e
    case AnonFault(k, f, c, flags) => AnonHonoured(s, g, k, f, c, flags);
    case ForkCall(parent, child, order) => ForkHonoured(s, g, parent, child, order);
    case WriteFault(k, f, c) => FaultHonoured(s, g, k, f, c);
    case UserStore(k, off, b) =>
  }

  lemma StepAtHonoured(run: seq<State>, events: seq<Event>, i: nat, g: map<Key, Grant>)
    requires |run| == |events| + 1 && i < |events| && StepAt(run, events, i) && Inv(run[i])
    requires AllHonoured(run[i].pages, g)
    ensures AllHonoured(run[i + 1].pages, GrantNext(g, events[i]))
  {
    StepHonoured(run[i], events[i], g);
  }

  // Over every run each page can be used by user code exactly if the region it was first mapped for, in the process or
  // in an ancestor, says so; and a page is never less executable than that.
  lemma {:induction false} AccessRefines(run: seq<State>, events: seq<Event>, procs: set<Pid>, n: nat)
    requires IsRun(run, events, procs) && n <= |events|
    ensures AllHonoured(run[n].pages, GrantsAfter(events[..n]))
  {
    if n > 0 {
      AccessRefines(run, events, procs, n - 1);
      RunRefines(run, events, procs, n - 1);
      assert StepAt(run, events, n - 1);
      assert events[..n][..n - 1] == events[..n - 1] && events[..n][n - 1] == events[n - 1];
      StepAtHonoured(run, events, n - 1, GrantsAfter(events[..n - 1]));
    }
  }

  // A page that lost its no-execute bit in a write fault is no-execute again in a child forked later, and only there.
  lemma NoExecReturns(s: State, k: Key, f: Frame, c: Cell, child: Pid)
    requires k in s.pages && LinkedAt(s.pages[k], s.cells, s.frames) && c !in s.cells && child != k.pid
    requires s.pages[k].entry.flags.cow && s.pages[k].flags.noExec
    ensures var t := Fault(s, k, f, c);
      && k in t.pages && t.pages[k].cell in t.cells
      && var u := ForkPage(t, k, child);
      && k in u.pages && Key(child, k.vaddr) in u.pages
      && !u.pages[k].entry.flags.noExec && u.pages[Key(child, k.vaddr)].entry.flags.noExec
  {
    FaultAccess(s, k, f, c);
    ForkPageAccess(Fault(s, k, f, c), k, child);
  }
}
