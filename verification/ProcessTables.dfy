// The page tables of all processes beside their page records (kernel/mm/vmm.c): what the processor finds by walking a
// process's tables is, for every page of the lower half, the entry that the copy-on-write protocol works with.
module ProcessTables {
  import opened Common
  import opened EntryBits
  import opened RadixTree
  import opened PageTables
  import opened PageEntries
  import opened CowKernel
  import CopyOnWrite

  type Pid = CopyOnWrite.Pid
  type Key = CopyOnWrite.Key
  type Words = map<Indices, bv64>

  // ----- pages and indices -----

  // A page-aligned address of the lower half.
  predicate UserPage(a: bv64) { a & 0x7fff_ffff_f000 == a }

  predicate UserIndices(v: Indices) { v.i4 & 0x100 == 0 }

  function At(k: Key): Indices { ComputeIndices(k.vaddr) }

  lemma UserPageIndices(a: bv64)
    requires UserPage(a)
    ensures UserIndices(ComputeIndices(a))
  {}

  lemma SameBits(a: bv64, b: bv64)
    requires UserPage(a) && UserPage(b) && (a ^ b) & 0xffff_ffff_f000 == 0
    ensures a == b
  {}

  lemma SamePage(a: bv64, b: bv64)
    requires UserPage(a) && UserPage(b) && ComputeIndices(a) == ComputeIndices(b)
    ensures a == b
  {
    IndicesArePages(a, b);
    SameBits(a, b);
  }

  // A 4 KiB entry, and flags for one.
  predicate EntryFits(e: bv64) { Present(e) && !Huge(e) }

  predicate Fits(e: bv64, flags: bv64) { EntryFits(e) && FlagsFit(flags) && EntryFits(flags) }

  lemma RecordFits(r: PageRecord)
    requires RecordOk(r)
    ensures Fits(r.entry, r.flags)
  {}

  // ----- records and entries agree -----

  // The entry of the record is the word its page has.
  ghost predicate Backs(pages: map<Key, PageRecord>, words: map<Pid, Words>, k: Key)
    requires k in pages
  {
    && UserPage(k.vaddr) && k.pid in words
    && At(k) in words[k.pid] && words[k.pid][At(k)] == pages[k].entry
  }

  ghost predicate Recorded(pages: map<Key, PageRecord>, p: Pid, v: Indices) {
    exists k :: k in pages && k.pid == p && At(k) == v
  }

  // The words of all processes are exactly the entries of all records.
  ghost predicate Agree(pages: map<Key, PageRecord>, words: map<Pid, Words>) {
    && (forall k {:trigger Backs(pages, words, k)} | k in pages :: Backs(pages, words, k))
    && (forall p, v {:trigger Recorded(pages, p, v)} | p in words && v in words[p] :: Recorded(pages, p, v))
  }

  ghost function SetTable(words: map<Pid, Words>, p: Pid, w: Words): map<Pid, Words> { words[p := w] }

  ghost function SetWord(words: map<Pid, Words>, k: Key, e: bv64): map<Pid, Words>
    requires k.pid in words
  {
    SetTable(words, k.pid, words[k.pid][At(k) := e])
  }

  lemma AgreeSet(pages: map<Key, PageRecord>, words: map<Pid, Words>, k: Key, r: PageRecord)
    requires Agree(pages, words) && UserPage(k.vaddr) && k.pid in words
    ensures Agree(pages[k := r], SetWord(words, k, r.entry))
  {
    var pages', words' := pages[k := r], SetWord(words, k, r.entry);
    forall j | j in pages'
      ensures Backs(pages', words', j)
    {
      if j != k {
        assert Backs(pages, words, j);
        if j.pid == k.pid && At(j) == At(k) { SamePage(j.vaddr, k.vaddr); }
      }
    }
    forall p, v | p in words' && v in words'[p]
      ensures Recorded(pages', p, v)
    {
      if p == k.pid && v == At(k) {
        assert k in pages';
      } else {
        assert Recorded(pages, p, v);
        var j :| j in pages && j.pid == p && At(j) == v;
        assert j in pages';
      }
    }
  }

  lemma WordHasRecord(pages: map<Key, PageRecord>, words: map<Pid, Words>, k: Key)
    requires Agree(pages, words) && UserPage(k.vaddr) && k.pid in words
    ensures At(k) in words[k.pid] ==> k in pages
  {
    if At(k) in words[k.pid] {
      assert Recorded(pages, k.pid, At(k));
      var j :| j in pages && j.pid == k.pid && At(j) == At(k);
      assert Backs(pages, words, j);
      SamePage(j.vaddr, k.vaddr);
    }
  }

  // ----- one table -----

  // The records of a table are exactly what it maps in the lower half.
  ghost predicate Exact(r: Records)
    reads r, r.table
  {
    r.Valid() && Maps(r.table.mem, r.table.root, r.entry.Keys)
  }

  // What is mapped in the lower half is among these pages.
  ghost predicate Maps(m: Memory, root: Table, pages: set<Indices>) {
    forall x | UserIndices(x) :: Flat(m, root, x).Some? ==> x in pages
  }

  lemma MapsMore(m: Memory, m': Memory, root: Table, pages: set<Indices>, v: Indices)
    requires Maps(m, root, pages) && OnlyPage(m, m', root, v)
    ensures Maps(m', root, pages + {v}) && (v in pages ==> Maps(m', root, pages))
  {
    forall x | UserIndices(x) && Flat(m', root, x).Some?
      ensures x in pages || x == v
    {
      if x != v { assert Untouched(m, m', root, x); }
    }
  }

  lemma MappedWord(r: Records, x: Indices)
    requires Exact(r) && UserIndices(x)
    ensures Flat(r.table.mem, r.table.root, x) == if x in r.Words() then Some(r.Words()[x]) else None
    ensures x !in r.entry ==> !Covered(r.table.mem, r.table.root, x)
  {
    if x in r.entry {
      assert Points(r.table.mem, r.table.root, x, r.entry[x]);
    }
  }

  // The pages that pmm_alloc would return for missing tables.
  datatype Supply = Supply(f3: Table, f2: Table, f1: Table)

  ghost function Tables(s: Supply): set<Table> { {s.f3, s.f2, s.f1} }

  ghost predicate Ready(m: Memory, owner: map<Table, Path>, s: Supply) {
    && Fresh(m, owner, s.f3) && Fresh(m, owner, s.f2) && Fresh(m, owner, s.f1)
    && s.f3 != s.f2 && s.f2 != s.f1 && s.f3 != s.f1
  }

  // map_page for a page that is not mapped.
  method AddPage(r: Records, v: Indices, e: bv64, flags: bv64, s: Supply)
    requires Exact(r) && UserIndices(v) && v !in r.entry && Ready(r.table.mem, r.table.owner, s)
    requires Fits(e, flags)
    modifies r, r.table
    ensures Exact(r) && r.Words() == old(r.Words())[v := e]
    ensures FreshKept(old(r.table.mem), r.table.mem, old(r.table.owner), r.table.owner, Tables(s))
  {
    MappedWord(r, v);
    ghost var m, before := r.table.mem, r.entry.Keys;
    r.Add(v, e, flags, s.f3, s.f2, s.f1);
    MapsMore(m, r.table.mem, r.table.root, before, v);
  }

  // A store through pml_entry or lowest_level.
  method WritePage(r: Records, v: Indices, e: bv64)
    requires Exact(r) && v in r.entry && EntryFits(e)
    modifies r.table
    ensures Exact(r) && r.Words() == old(r.Words())[v := e]
    ensures FreshKept(old(r.table.mem), r.table.mem, old(r.table.owner), r.table.owner, {})
  {
    ghost var m := r.table.mem;
    r.Write(v, e);
    MapsMore(m, r.table.mem, r.table.root, r.entry.Keys, v);
  }

  // ----- the steps on records and tables together -----

  // What a new record needs of the table, and what it leaves.
  lemma NewRecord(pages: map<Key, PageRecord>, words: map<Pid, Words>, k: Key, r: PageRecord)
    requires Agree(pages, words) && UserPage(k.vaddr) && k.pid in words && k !in pages
    ensures At(k) !in words[k.pid] && UserIndices(At(k))
    ensures Agree(pages[k := r], SetWord(words, k, r.entry))
  {
    WordHasRecord(pages, words, k);
    UserPageIndices(k.vaddr);
    AgreeSet(pages, words, k, r);
  }

  lemma OldRecord(pages: map<Key, PageRecord>, words: map<Pid, Words>, k: Key, r: PageRecord)
    requires Agree(pages, words) && k in pages
    ensures UserPage(k.vaddr) && k.pid in words && At(k) in words[k.pid]
    ensures Agree(pages[k := r], SetWord(words, k, r.entry))
  {
    assert Backs(pages, words, k);
    AgreeSet(pages, words, k, r);
  }

  // vmm_anon_map: record and entry of a new page.
  method AnonMap(vmm: Vmm, r: Records, k: Key, prot: bv64, f: bv64, c: CopyOnWrite.Cell, s: Supply,
                 ghost words: map<Pid, Words>)
    requires vmm.Valid() && FrameOk(f) && k !in vmm.pages && UserPage(k.vaddr)
    requires Exact(r) && Ready(r.table.mem, r.table.owner, s)
    requires Agree(vmm.pages, words) && k.pid in words && words[k.pid] == r.Words()
    modifies vmm, r, r.table
    ensures vmm.Valid() && Exact(r) && Agree(vmm.pages, SetTable(words, k.pid, r.Words()))
    ensures vmm.procs == old(vmm.procs)
    ensures vmm.Abstract() == CopyOnWrite.AnonMap(old(vmm.Abstract()), k, CopyOnWrite.Frame(f), c, AnonFlags(prot))
  {
    ghost var pages := vmm.pages;
    vmm.AnonMap(k, prot, f, c);
    var page := vmm.pages[k];
    NewRecord(pages, words, k, page);
    RecordFits(page);
    AddPage(r, At(k), page.entry, page.flags, s);
  }

  // The tables of two processes.
  ghost function Both(words: map<Pid, Words>, p: Pid, w: Words, q: Pid, x: Words): map<Pid, Words> {
    SetTable(SetTable(words, p, w), q, x)
  }

  lemma BothSet(words: map<Pid, Words>, p: Pid, w: Words, q: Pid, x: Words, w': Words, x': Words)
    requires p != q
    ensures SetTable(SetTable(Both(words, p, w, q, x), p, w'), q, x') == Both(words, p, w', q, x')
  {}

  lemma SharedRecord(pages: map<Key, PageRecord>, words: map<Pid, Words>, k: Key, w: Words, child: Pid, x: Words,
                     page: PageRecord, copy: PageRecord)
    requires Agree(pages, Both(words, k.pid, w, child, x)) && k in pages && child != k.pid
    requires CopyOnWrite.Key(child, k.vaddr) !in pages
    ensures var v := At(k);
      && v in w && v !in x && UserIndices(v)
      && Agree(pages[k := page][CopyOnWrite.Key(child, k.vaddr) := copy],
               Both(words, k.pid, w[v := page.entry], child, x[v := copy.entry]))
  {
    var all := Both(words, k.pid, w, child, x);
    assert all[k.pid] == w && all[child] == x;
    OldRecord(pages, all, k, page);
    NewRecord(pages[k := page], SetWord(all, k, page.entry), CopyOnWrite.Key(child, k.vaddr), copy);
    BothSet(words, k.pid, w, child, x, w[At(k) := page.entry], x[At(k) := copy.entry]);
  }

  // One round of the fork loop: the parent's entry is protected and the child's table gets its own.
  method Share(vmm: Vmm, p: Records, q: Records, k: Key, child: Pid, s: Supply, ghost words: map<Pid, Words>)
    requires vmm.Valid() && k in vmm.pages && vmm.pages[k].reference in vmm.cells
    requires child != k.pid && CopyOnWrite.Key(child, k.vaddr) !in vmm.pages && p != q && p.table != q.table
    requires Exact(p) && Exact(q) && Ready(q.table.mem, q.table.owner, s)
    requires Agree(vmm.pages, Both(words, k.pid, p.Words(), child, q.Words()))
    modifies vmm, p.table, q, q.table
    ensures vmm.Valid() && Exact(p) && Exact(q)
    ensures Agree(vmm.pages, Both(words, k.pid, p.Words(), child, q.Words()))
    ensures vmm.procs == old(vmm.procs) && ForksPage(old(vmm.Abstract()), vmm.Abstract(), k, child)
    ensures FreshKept(old(q.table.mem), q.table.mem, old(q.table.owner), q.table.owner, Tables(s))
  {
    var j := CopyOnWrite.Key(child, k.vaddr);
    ghost var pages := vmm.pages;
    vmm.ShareWith(k, child);
    var page, copy := vmm.pages[k], vmm.pages[j];
    SharedRecord(pages, words, k, p.Words(), child, q.Words(), page, copy);
    RecordFits(page);
    RecordFits(copy);
    ShareTables(p, q, At(k), page.entry, copy.entry, copy.flags, s);
  }

  // The two tables in that round.
  method ShareTables(p: Records, q: Records, v: Indices, e: bv64, e': bv64, flags: bv64, s: Supply)
    requires Exact(p) && Exact(q) && p != q && p.table != q.table && Ready(q.table.mem, q.table.owner, s)
    requires v in p.entry && v !in q.entry && UserIndices(v)
    requires EntryFits(e) && Fits(e', flags)
    modifies p.table, q, q.table
    ensures Exact(p) && p.Words() == old(p.Words())[v := e]
    ensures Exact(q) && q.Words() == old(q.Words())[v := e']
    ensures FreshKept(old(q.table.mem), q.table.mem, old(q.table.owner), q.table.owner, Tables(s))
  {
    WritePage(p, v, e);
    ghost var w := p.Words();
    AddPage(q, v, e', flags, s);
    assert Exact(p) && p.Words() == w;
  }

  // The protection-fault half of vmm_pf_handler.
  method Resolve(vmm: Vmm, r: Records, k: Key, f: bv64, c: CopyOnWrite.Cell, ghost words: map<Pid, Words>)
    requires vmm.Valid() && k in vmm.pages && FrameOk(f)
    requires Resolvable(vmm.Abstract(), k)
    requires Exact(r) && Agree(vmm.pages, words) && k.pid in words && words[k.pid] == r.Words()
    modifies vmm, r.table
    ensures vmm.Valid() && Exact(r) && Agree(vmm.pages, SetTable(words, k.pid, r.Words()))
    ensures vmm.procs == old(vmm.procs)
    ensures Resolves(old(vmm.Abstract()), vmm.Abstract(), k, f, c)
  {
    ghost var pages := vmm.pages;
    vmm.ResolveFault(k, f, c);
    OldRecord(pages, words, k, vmm.pages[k]);
    RecordFits(vmm.pages[k]);
    WritePage(r, At(k), vmm.pages[k].entry);
  }

  // ----- fork -----

  // Enough pages for the tables of the rounds from i on, none offered twice.
  ghost predicate Stocked(m: Memory, owner: map<Table, Path>, supply: seq<Supply>, i: nat) {
    forall j | i <= j < |supply| :: Ready(m, owner, supply[j])
  }

  ghost predicate Apart(s: Supply, t: Supply) { Tables(s) !! Tables(t) }

  ghost predicate NoneTwice(supply: seq<Supply>) {
    forall i, j | 0 <= i < j < |supply| :: Apart(supply[i], supply[j])
  }

  lemma StillReady(m: Memory, m': Memory, owner: map<Table, Path>, owner': map<Table, Path>, s: Supply, t: Supply)
    requires FreshKept(m, m', owner, owner', Tables(s)) && Ready(m, owner, t) && Apart(s, t)
    ensures Ready(m', owner', t)
  {
    assert t.f3 in Tables(t) && t.f2 in Tables(t) && t.f1 in Tables(t);
  }

  lemma StillStocked(m: Memory, m': Memory, owner: map<Table, Path>, owner': map<Table, Path>, supply: seq<Supply>,
                     i: nat)
    requires i < |supply| && NoneTwice(supply) && Stocked(m, owner, supply, i)
    requires FreshKept(m, m', owner, owner', Tables(supply[i]))
    ensures Stocked(m', owner', supply, i + 1)
  {
    forall j | i + 1 <= j < |supply|
      ensures Ready(m', owner', supply[j])
    {
      assert Ready(m, owner, supply[j]) && Apart(supply[i], supply[j]);
      StillReady(m, m', owner, owner', supply[i], supply[j]);
    }
  }

  // The loop of vmm_fork_page_table.
  method ForkLoop(vmm: Vmm, p: Records, q: Records, parent: Pid, child: Pid, order: seq<bv64>, supply: seq<Supply>,
                  ghost words: map<Pid, Words>)
    requires vmm.Valid() && CopyOnWrite.Inv(vmm.Abstract()) && child in vmm.procs && parent != child
    requires CopyOnWrite.Lists(vmm.Abstract(), parent, order)
    requires forall k | k in vmm.Abstract().pages :: k.pid != child
    requires p != q && p.table != q.table && Exact(p) && Exact(q)
    requires |supply| == |order| && NoneTwice(supply) && Stocked(q.table.mem, q.table.owner, supply, 0)
    requires Agree(vmm.pages, Both(words, parent, p.Words(), child, q.Words()))
    modifies vmm, p.table, q, q.table
    ensures vmm.Valid() && Exact(p) && Exact(q) && vmm.procs == old(vmm.procs)
    ensures Agree(vmm.pages, Both(words, parent, p.Words(), child, q.Words()))
    ensures vmm.Abstract() == CopyOnWrite.ForkPages(old(vmm.Abstract()), parent, child, order)
  {
    ghost var s := vmm.Abstract();
    for i := 0 to |order|
      invariant vmm.Valid() && Exact(p) && Exact(q) && vmm.procs == old(vmm.procs)
      invariant Stocked(q.table.mem, q.table.owner, supply, i)
      invariant Agree(vmm.pages, Both(words, parent, p.Words(), child, q.Words()))
      invariant vmm.Abstract() == CopyOnWrite.ForkPages(s, parent, child, order[..i])
    {
      CopyOnWrite.ForkPagesNext(s, parent, child, order, i);
      CopyOnWrite.ForkPagesNew(s, parent, child, order, i);
      DecodedRecord(vmm.pages, CopyOnWrite.Key(parent, order[i]));
      Round(vmm, p, q, CopyOnWrite.Key(parent, order[i]), child, supply, i, words);
    }
    assert order[..|order|] == order;
  }

  // One round, with the stock of pages.
  method Round(vmm: Vmm, p: Records, q: Records, k: Key, child: Pid, supply: seq<Supply>, i: nat,
               ghost words: map<Pid, Words>)
    requires vmm.Valid() && k in vmm.pages && vmm.pages[k].reference in vmm.cells
    requires child != k.pid && CopyOnWrite.Key(child, k.vaddr) !in vmm.pages
    requires p != q && p.table != q.table && Exact(p) && Exact(q)
    requires i < |supply| && NoneTwice(supply) && Stocked(q.table.mem, q.table.owner, supply, i)
    requires Agree(vmm.pages, Both(words, k.pid, p.Words(), child, q.Words()))
    modifies vmm, p.table, q, q.table
    ensures vmm.Valid() && Exact(p) && Exact(q) && vmm.procs == old(vmm.procs)
    ensures Stocked(q.table.mem, q.table.owner, supply, i + 1)
    ensures Agree(vmm.pages, Both(words, k.pid, p.Words(), child, q.Words()))
    ensures ForksPage(old(vmm.Abstract()), vmm.Abstract(), k, child)
  {
    ghost var m, owner := q.table.mem, q.table.owner;
    assert Ready(m, owner, supply[i]);
    Share(vmm, p, q, k, child, supply[i], words);
    StillStocked(m, q.table.mem, owner, q.table.owner, supply, i);
  }

  // ----- all processes -----

  // The table maps exactly these words in the lower half.
  ghost predicate IsTable(r: Records, w: Words)
    reads r, r.table
  {
    Exact(r) && r.Words() == w
  }

  ghost predicate Distinct(r: Records, s: Records) { r != s && r.table != s.table }

  ghost predicate DistinctAt(tables: map<Pid, Records>, p: Pid, q: Pid)
    requires p in tables && q in tables
  {
    p != q ==> Distinct(tables[p], tables[q])
  }

  ghost predicate AllDistinct(tables: map<Pid, Records>) {
    forall p, q {:trigger DistinctAt(tables, p, q)} | p in tables && q in tables :: DistinctAt(tables, p, q)
  }

  ghost function Objects(tables: map<Pid, Records>): set<object> {
    (set p | p in tables :: tables[p]) + (set p | p in tables :: tables[p].table)
  }

  ghost predicate TableAt(tables: map<Pid, Records>, words: map<Pid, Words>, p: Pid)
    requires p in tables && p in words
    reads tables[p], tables[p].table
  {
    IsTable(tables[p], words[p])
  }

  ghost predicate AllTables(tables: map<Pid, Records>, words: map<Pid, Words>)
    reads Objects(tables)
  {
    && tables.Keys == words.Keys
    && forall p {:trigger TableAt(tables, words, p)} | p in tables && p in words :: TableAt(tables, words, p)
  }

  // A table of its own for every process, and tables that map exactly the records.
  ghost predicate Linked(vmm: Vmm, tables: map<Pid, Records>, words: map<Pid, Words>)
    reads vmm, Objects(tables)
  {
    && vmm.Valid() && tables.Keys == vmm.procs
    && AllDistinct(tables) && AllTables(tables, words) && Agree(vmm.pages, words)
  }

  ghost predicate Valid(vmm: Vmm, tables: map<Pid, Records>, words: map<Pid, Words>)
    reads vmm, Objects(tables)
  {
    Linked(vmm, tables, words) && CopyOnWrite.Inv(vmm.Abstract())
  }

  // A step on one table, when the others stay as they are.
  lemma TablesSet(tables: map<Pid, Records>, words: map<Pid, Words>, p: Pid)
    requires tables.Keys == words.Keys && p in tables && Exact(tables[p])
    requires forall q | q in tables && q != p :: TableAt(tables, words, q)
    ensures AllTables(tables, SetTable(words, p, tables[p].Words()))
  {
    var words' := SetTable(words, p, tables[p].Words());
    forall q | q in tables
      ensures q in words' && TableAt(tables, words', q)
    {
      if q != p { assert TableAt(tables, words, q); }
    }
  }

  // The record and the entry of a new page.
  method MapNew(vmm: Vmm, tables: map<Pid, Records>, k: Key, prot: bv64, f: bv64, c: CopyOnWrite.Cell, s: Supply,
                ghost words: map<Pid, Words>) returns (ghost words': map<Pid, Words>)
    requires Linked(vmm, tables, words) && k.pid in tables && UserPage(k.vaddr) && k !in vmm.pages && FrameOk(f)
    requires Ready(tables[k.pid].table.mem, tables[k.pid].table.owner, s)
    modifies vmm, tables[k.pid], tables[k.pid].table
    ensures Linked(vmm, tables, words')
    ensures vmm.Abstract() == CopyOnWrite.AnonMap(old(vmm.Abstract()), k, CopyOnWrite.Frame(f), c, AnonFlags(prot))
  {
    var r := tables[k.pid];
    assert TableAt(tables, words, k.pid);
    AnonMap(vmm, r, k, prot, f, c, s, words);
    forall q | q in tables && q != k.pid
      ensures TableAt(tables, words, q)
    {
      assert old(TableAt(tables, words, q)) && DistinctAt(tables, q, k.pid);
      assert TableAt(tables, words, q) == old(TableAt(tables, words, q));
    }
    TablesSet(tables, words, k.pid);
    words' := SetTable(words, k.pid, r.Words());
  }

  // The record and the entry of a page that a store was denied.
  method MapAgain(vmm: Vmm, tables: map<Pid, Records>, k: Key, f: bv64, c: CopyOnWrite.Cell,
                  ghost words: map<Pid, Words>) returns (ghost words': map<Pid, Words>)
    requires Linked(vmm, tables, words) && k in vmm.pages && k.pid in tables && FrameOk(f)
    requires Resolvable(vmm.Abstract(), k)
    modifies vmm, tables[k.pid].table
    ensures Linked(vmm, tables, words')
    ensures Resolves(old(vmm.Abstract()), vmm.Abstract(), k, f, c)
  {
    var r := tables[k.pid];
    assert TableAt(tables, words, k.pid);
    Resolve(vmm, r, k, f, c, words);
    forall q | q in tables && q != k.pid
      ensures TableAt(tables, words, q)
    {
      assert old(TableAt(tables, words, q)) && DistinctAt(tables, q, k.pid);
      assert TableAt(tables, words, q) == old(TableAt(tables, words, q));
    }
    TablesSet(tables, words, k.pid);
    words' := SetTable(words, k.pid, r.Words());
  }

  // vmm_pf_handler on both, with the protection of the region found for the address, if any.
  method PageFault(vmm: Vmm, tables: map<Pid, Records>, k: Key, errorCode: bv64, regionProt: Option<bv64>, f: bv64,
                   c: CopyOnWrite.Cell, s: Supply, ghost words: map<Pid, Words>)
    returns (status: bool, ghost words': map<Pid, Words>)
    requires Valid(vmm, tables, words) && k.pid in tables && UserPage(k.vaddr)
    requires errorCode & P == 0 <==> k !in vmm.pages
    requires FrameOk(f) && CopyOnWrite.Frame(f) !in vmm.frames && c !in vmm.cells
    requires Ready(tables[k.pid].table.mem, tables[k.pid].table.owner, s)
    modifies vmm, tables[k.pid], tables[k.pid].table
    ensures Valid(vmm, tables, words') && (status <==> k in old(vmm.pages) || regionProt.Some?)
    ensures !status ==> vmm.Abstract() == old(vmm.Abstract())
    ensures k in old(vmm.pages) ==>
      && Resolves(old(vmm.Abstract()), vmm.Abstract(), k, f, c)
      && CopyOnWrite.Abs(vmm.Abstract()) == CopyOnWrite.Abs(old(vmm.Abstract()))
    ensures k !in old(vmm.pages) && regionProt.Some? ==>
      var flags := AnonFlags(regionProt.value);
      vmm.Abstract() == CopyOnWrite.AnonMap(old(vmm.Abstract()), k, CopyOnWrite.Frame(f), c, flags)
  {
    if errorCode & P != 0 {
      words' := Denied(vmm, tables, k, f, c, words);
    } else if regionProt.Some? {
      words' := Absent(vmm, tables, k, regionProt.value, f, c, s, words);
    } else {
      return false, words;
    }
    status := true;
  }

  // A fault on an absent page that a region has.
  method Absent(vmm: Vmm, tables: map<Pid, Records>, k: Key, prot: bv64, f: bv64, c: CopyOnWrite.Cell, s: Supply,
                ghost words: map<Pid, Words>) returns (ghost words': map<Pid, Words>)
    requires Valid(vmm, tables, words) && k.pid in tables && UserPage(k.vaddr) && k !in vmm.pages
    requires FrameOk(f) && CopyOnWrite.Frame(f) !in vmm.frames && c !in vmm.cells
    requires Ready(tables[k.pid].table.mem, tables[k.pid].table.owner, s)
    modifies vmm, tables[k.pid], tables[k.pid].table
    ensures Valid(vmm, tables, words')
    ensures vmm.Abstract() == CopyOnWrite.AnonMap(old(vmm.Abstract()), k, CopyOnWrite.Frame(f), c, AnonFlags(prot))
  {
    DecodedRecord(vmm.pages, k);
    CopyOnWrite.AnonMapKeeps(vmm.Abstract(), k, CopyOnWrite.Frame(f), c, AnonFlags(prot));
    words' := MapNew(vmm, tables, k, prot, f, c, s, words);
  }

  // A store to a present page that is not writable.
  method Denied(vmm: Vmm, tables: map<Pid, Records>, k: Key, f: bv64, c: CopyOnWrite.Cell, ghost words: map<Pid, Words>)
    returns (ghost words': map<Pid, Words>)
    requires Valid(vmm, tables, words) && k in vmm.pages && k.pid in tables
    requires FrameOk(f) && CopyOnWrite.Frame(f) !in vmm.frames && c !in vmm.cells
    modifies vmm, tables[k.pid].table
    ensures Valid(vmm, tables, words') && Resolves(old(vmm.Abstract()), vmm.Abstract(), k, f, c)
    ensures CopyOnWrite.Abs(vmm.Abstract()) == CopyOnWrite.Abs(old(vmm.Abstract()))
  {
    ghost var before := vmm.Abstract();
    DecodedRecord(vmm.pages, k);
    assert CopyOnWrite.LinkedAt(before.pages[k], before.cells, before.frames);
    CopyOnWrite.FaultKeeps(before, k, CopyOnWrite.Frame(f), c);
    CopyOnWrite.FaultView(before, k, CopyOnWrite.Frame(f), c);
    words' := MapAgain(vmm, tables, k, f, c, words);
  }

  lemma AgreeNew(pages: map<Key, PageRecord>, words: map<Pid, Words>, child: Pid)
    requires Agree(pages, words) && child !in words
    ensures Agree(pages, SetTable(words, child, map[]))
  {
    var words' := SetTable(words, child, map[]);
    forall k | k in pages
      ensures Backs(pages, words', k)
    {
      assert Backs(pages, words, k);
    }
    forall p, v | p in words' && v in words'[p]
      ensures Recorded(pages, p, v)
    {
      assert p in words && v in words[p];
    }
  }

  lemma BothNew(words: map<Pid, Words>, parent: Pid, child: Pid, w: Words)
    requires parent in words && child !in words
    ensures Both(words, parent, words[parent], child, w) == SetTable(words, child, w)
  {}

  // The tables after a fork, when those of the other processes stay as they are.
  lemma TablesFork(tables: map<Pid, Records>, words: map<Pid, Words>, parent: Pid, child: Pid, q: Records)
    requires tables.Keys == words.Keys && parent in tables && child !in tables && AllDistinct(tables)
    requires Exact(tables[parent]) && Exact(q) && forall p | p in tables :: Distinct(tables[p], q)
    requires forall p | p in tables && p != parent :: TableAt(tables, words, p)
    ensures AllDistinct(tables[child := q])
    ensures AllTables(tables[child := q], Both(words, parent, tables[parent].Words(), child, q.Words()))
  {
    var tables', words' := tables[child := q], Both(words, parent, tables[parent].Words(), child, q.Words());
    forall p | p in tables'
      ensures p in words' && TableAt(tables', words', p)
    {
      if p != child && p != parent { assert TableAt(tables, words, p); }
    }
    forall p, r | p in tables' && r in tables'
      ensures DistinctAt(tables', p, r)
    {
      if p != child && r != child { assert DistinctAt(tables, p, r); }
    }
  }

  // A new table for the child: nothing in the lower half, and no page shared with another table.
  ghost predicate NewTable(q: Records, tables: map<Pid, Records>, supply: seq<Supply>)
    reads q, q.table
  {
    && Exact(q) && q.entry == map[] && (forall p | p in tables :: Distinct(tables[p], q))
    && NoneTwice(supply) && Stocked(q.table.mem, q.table.owner, supply, 0)
  }

  // The new process and the loop, on the two tables they touch.
  method ForkPair(vmm: Vmm, r: Records, q: Records, parent: Pid, child: Pid, order: seq<bv64>, supply: seq<Supply>,
                  ghost words: map<Pid, Words>)
    requires vmm.Valid() && Agree(vmm.pages, words) && parent in words && child !in words && parent != child
    requires var s := vmm.Abstract().(procs := vmm.procs + {child});
      CopyOnWrite.Inv(s) && CopyOnWrite.Lists(s, parent, order) && forall k | k in s.pages :: k.pid != child
    requires IsTable(r, words[parent]) && IsTable(q, map[]) && Distinct(r, q)
    requires |supply| == |order| && NoneTwice(supply) && Stocked(q.table.mem, q.table.owner, supply, 0)
    modifies vmm, r.table, q, q.table
    ensures vmm.Valid() && Exact(r) && Exact(q) && vmm.procs == old(vmm.procs) + {child}
    ensures Agree(vmm.pages, Both(words, parent, r.Words(), child, q.Words()))
    ensures vmm.Abstract() == CopyOnWrite.Fork(old(vmm.Abstract()), parent, child, order)
  {
    ghost var s := vmm.Abstract();
    AgreeNew(vmm.pages, words, child);
    BothNew(words, parent, child, map[]);
    vmm.procs := vmm.procs + {child};
    assert vmm.Abstract() == s.(procs := s.procs + {child});
    ForkLoop(vmm, r, q, parent, child, order, supply, words);
  }

  method ForkTables(vmm: Vmm, tables: map<Pid, Records>, parent: Pid, child: Pid, order: seq<bv64>, q: Records,
                    supply: seq<Supply>, ghost words: map<Pid, Words>)
    returns (tables': map<Pid, Records>, ghost words': map<Pid, Words>)
    requires Linked(vmm, tables, words) && parent in tables && child !in tables
    requires var s := vmm.Abstract().(procs := vmm.procs + {child});
      CopyOnWrite.Inv(s) && CopyOnWrite.Lists(s, parent, order) && forall k | k in s.pages :: k.pid != child
    requires NewTable(q, tables, supply) && |supply| == |order|
    modifies vmm, tables[parent].table, q, q.table
    ensures Linked(vmm, tables', words') && tables' == tables[child := q]
    ensures vmm.Abstract() == CopyOnWrite.Fork(old(vmm.Abstract()), parent, child, order)
  {
    var r := tables[parent];
    assert TableAt(tables, words, parent);
    ForkPair(vmm, r, q, parent, child, order, supply, words);
    forall p | p in tables && p != parent
      ensures TableAt(tables, words, p)
    {
      assert old(TableAt(tables, words, p)) && DistinctAt(tables, p, parent) && Distinct(tables[p], q);
      assert TableAt(tables, words, p) == old(TableAt(tables, words, p));
    }
    TablesFork(tables, words, parent, child, q);
    tables', words' := tables[child := q], Both(words, parent, r.Words(), child, q.Words());
  }

  // vmm_fork_page_table on both; `q` is the child's new table.
  method Fork(vmm: Vmm, tables: map<Pid, Records>, parent: Pid, child: Pid, order: seq<bv64>, q: Records,
              supply: seq<Supply>, ghost words: map<Pid, Words>)
    returns (tables': map<Pid, Records>, ghost words': map<Pid, Words>)
    requires Valid(vmm, tables, words) && parent in tables && child !in tables
    requires CopyOnWrite.Lists(vmm.Abstract(), parent, order)
    requires NewTable(q, tables, supply) && |supply| == |order|
    modifies vmm, tables[parent].table, q, q.table
    ensures Valid(vmm, tables', words') && tables' == tables[child := q]
    ensures vmm.Abstract() == CopyOnWrite.Fork(old(vmm.Abstract()), parent, child, order)
    ensures CopyOnWrite.Abs(vmm.Abstract()) ==
      CopyOnWrite.EagerFork(CopyOnWrite.Abs(old(vmm.Abstract())), parent, child)
  {
    ghost var s := vmm.Abstract();
    CopyOnWrite.AddProcess(s, child);
    CopyOnWrite.ForkKeeps(s, parent, child, order);
    CopyOnWrite.ForkRefines(s, parent, child, order);
    tables', words' := ForkTables(vmm, tables, parent, child, order, q, supply, words);
  }

  // ----- what the processor sees -----

  // The start: processes whose tables map nothing in the lower half.
  lemma Begins(vmm: Vmm, tables: map<Pid, Records>, words: map<Pid, Words>)
    requires vmm.pages == map[] && vmm.Abstract() == CopyOnWrite.Start(tables.Keys) && AllDistinct(tables)
    requires AllTables(tables, words) && forall p | p in words :: words[p] == map[]
    ensures Valid(vmm, tables, words)
  {}

  // For every page of the lower half the walk finds the entry of its record, and nothing without a record.
  lemma Translated(vmm: Vmm, tables: map<Pid, Records>, words: map<Pid, Words>, k: Key)
    requires Linked(vmm, tables, words) && k.pid in tables && UserPage(k.vaddr)
    ensures var t := tables[k.pid].table;
      Flat(t.mem, t.root, At(k)) == if k in vmm.pages then Some(vmm.pages[k].entry) else None
  {
    assert TableAt(tables, words, k.pid);
    UserPageIndices(k.vaddr);
    MappedWord(tables[k.pid], At(k));
    WordHasRecord(vmm.pages, words, k);
    if k in vmm.pages { assert Backs(vmm.pages, words, k); }
  }

  // The frame that the walk leads to holds the page of the machine whose forks copy at once.
  lemma WalkSeesView(vmm: Vmm, tables: map<Pid, Records>, words: map<Pid, Words>, k: Key)
    requires Valid(vmm, tables, words) && k in vmm.pages && k.pid in tables && UserPage(k.vaddr)
    ensures var t := tables[k.pid].table;
      var e := Flat(t.mem, t.root, At(k));
      && e.Some? && Decode(e.value).frame in vmm.frames
      && k in CopyOnWrite.Abs(vmm.Abstract()).mem
      && vmm.frames[Decode(e.value).frame] == CopyOnWrite.Abs(vmm.Abstract()).mem[k]
  {
    Translated(vmm, tables, words, k);
    var s := vmm.Abstract();
    DecodedRecord(vmm.pages, k);
    assert CopyOnWrite.LinkedAt(s.pages[k], s.cells, s.frames);
    CopyOnWrite.ViewKeys(s);
  }
}
