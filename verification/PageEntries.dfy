// The pml_entry pointers of a process's page records (kernel/mm/vmm.c): each is the word that map_page returned, and
// fork and the fault handler write through it or through lowest_level.
module PageEntries {
  import opened Common
  import opened RadixTree
  import opened PageTables

  // The word behind the pointer is the one lowest_level finds for the page, a present 4 KiB entry.
  ghost predicate Points(m: Memory, root: Table, v: Indices, w: Word) {
    LowestLevel(m, root, v) == Some(w) && Present(Read(m, w)) && !Huge(Read(m, w))
  }

  // A page that is not touched keeps its word, and what is in it.
  lemma StillPoints(m: Memory, m': Memory, root: Table, v: Indices, w: Word)
    requires Points(m, root, v, w) && Untouched(m, m', root, v)
    ensures Points(m', root, v, w) && Read(m', w) == Read(m, w)
  {}

  lemma PointsIntoLeaf(m: Memory, root: Table, owner: map<Table, Path>, v: Indices, w: Word)
    requires Wf(m, root, owner) && Points(m, root, v, w)
    ensures w.table in owner && owner[w.table].L1?
  {
    LeafOwned(m, root, owner, v);
  }

  // No page but v changes.
  ghost predicate OnlyPage(m: Memory, m': Memory, root: Table, v: Indices) {
    forall x | x != v :: Untouched(m, m', root, x)
  }

  ghost predicate AllPoint(m: Memory, root: Table, entry: map<Indices, Word>) {
    forall v | v in entry :: Points(m, root, v, entry[v])
  }

  ghost function WordsOf(m: Memory, entry: map<Indices, Word>): map<Indices, bv64> {
    map v | v in entry :: Read(m, entry[v])
  }

  // One page gets a new entry; every other pointer stays right, and so does the word behind it.
  lemma AllStillPoint(m: Memory, m': Memory, root: Table, entry: map<Indices, Word>, v: Indices, w: Word, e: bv64)
    requires AllPoint(m, root, entry) && Points(m', root, v, w) && Read(m', w) == e
    requires OnlyPage(m, m', root, v)
    ensures AllPoint(m', root, entry[v := w]) && WordsOf(m', entry[v := w]) == WordsOf(m, entry)[v := e]
  {
    forall x | x in entry && x != v
      ensures Points(m', root, x, entry[x]) && Read(m', entry[x]) == Read(m, entry[x])
    {
      StillPoints(m, m', root, x, entry[x]);
    }
  }

  // The same for a page that is recorded already.
  lemma Rewritten(m: Memory, m': Memory, root: Table, entry: map<Indices, Word>, v: Indices, e: bv64)
    requires AllPoint(m, root, entry) && v in entry && LowestLevel(m', root, v) == Some(entry[v])
    requires Read(m', entry[v]) == e && Present(e) && !Huge(e)
    requires OnlyPage(m, m', root, v)
    ensures AllPoint(m', root, entry) && WordsOf(m', entry) == WordsOf(m, entry)[v := e]
  {
    AllStillPoint(m, m', root, entry, v, entry[v], e);
    assert entry[v := entry[v]] == entry;
  }

  class Records {
    const table: PageTable
    var entry: map<Indices, Word>   // pml_entry of every record, by page

    ghost predicate Valid()
      reads this, table
    {
      table.Valid() && AllPoint(table.mem, table.root, entry)
    }

    // The entry of every recorded page.
    ghost function Words(): map<Indices, bv64>
      reads this, table
    {
      WordsOf(table.mem, entry)
    }

    constructor (table: PageTable)
      requires table.Valid()
      ensures Valid() && this.table == table && entry == map[]
    {
      this.table, entry := table, map[];
    }

    // .pml_entry = page_table->map_page(page_table, vaddr, paddr, flags)
    method Add(v: Indices, e: bv64, flags: bv64, f3: Table, f2: Table, f1: Table)
      requires Valid() && v !in entry && !Covered(table.mem, table.root, v)
      requires Present(flags) && FlagsFit(flags) && !Huge(flags) && Present(e) && !Huge(e)
      requires Fresh(table.mem, table.owner, f3) && Fresh(table.mem, table.owner, f2)
      requires Fresh(table.mem, table.owner, f1)
      requires f3 != f2 && f2 != f1 && f3 != f1
      modifies this, table
      ensures Valid() && Words() == old(Words())[v := e] && entry.Keys == old(entry).Keys + {v}
      ensures OnlyPage(old(table.mem), table.mem, table.root, v)
      ensures FreshKept(old(table.mem), table.mem, old(table.owner), table.owner, {f3, f2, f1})
    {
      ghost var m := table.mem;
      var w := table.MapAt(v, e, flags, f3, f2, f1);
      AllStillPoint(m, table.mem, table.root, entry, v, w.value, e);
      entry := entry[v := w.value];
    }

    // *page->pml_entry = e, and *lowest_level = e
    method Write(v: Indices, e: bv64)
      requires Valid() && v in entry && Present(e) && !Huge(e)
      modifies table
      ensures Valid() && Words() == old(Words())[v := e] && Flat(table.mem, table.root, v) == Some(e)
      ensures OnlyPage(old(table.mem), table.mem, table.root, v)
      ensures FreshKept(old(table.mem), table.mem, old(table.owner), table.owner, {})
    {
      ghost var m := table.mem;
      PointsIntoLeaf(table.mem, table.root, table.owner, v, entry[v]);
      table.MapLeaf(v, entry[v], e);
      Rewritten(m, table.mem, table.root, entry, v, e);
    }
  }
}
