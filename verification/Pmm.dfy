// kernel/mm/pmm.c: a page allocator over one bitmap per memory module, with a moving hint.
module Pmm {
  import opened Common
  import opened Arith

  // A run of pages handed out, by index into the module.
  datatype Run = Run(start: nat, cnt: nat)

  // ----- bitmaps -----

  function Fill(bits: seq<bool>, lo: nat, hi: nat, v: bool): (r: seq<bool>)
    ensures |r| == |bits|
  {
    seq(|bits|, i requires 0 <= i < |bits| => if lo <= i < hi then v else bits[i])
  }

  function Ones(bits: seq<bool>): nat {
    if bits == [] then 0 else Ones(bits[..|bits| - 1]) + if bits[|bits| - 1] then 1 else 0
  }

  lemma {:induction false} OnesUpdate(bits: seq<bool>, i: nat, v: bool)
    requires i < |bits|
    ensures Ones(bits[i := v]) == Ones(bits) - (if bits[i] then 1 else 0) + (if v then 1 else 0)
  {
    var n := |bits| - 1;
    if i == n {
      assert bits[i := v][..n] == bits[..n];
    } else {
      OnesUpdate(bits[..n], i, v);
      assert bits[i := v][..n] == bits[..n][i := v];
    }
  }

  // Filling a run that was uniformly the opposite changes the count by its length.
  lemma {:induction false} OnesFill(bits: seq<bool>, lo: nat, hi: nat, v: bool)
    requires lo <= hi <= |bits| && forall i | lo <= i < hi :: bits[i] == !v
    ensures Ones(Fill(bits, lo, hi, v)) == Ones(bits) + (if v then hi - lo else lo - hi)
    decreases hi
  {
    if lo == hi {
      assert Fill(bits, lo, hi, v) == bits;
    } else {
      OnesFill(bits, lo, hi - 1, v);
      assert Fill(bits, lo, hi, v) == Fill(bits, lo, hi - 1, v)[hi - 1 := v];
      OnesUpdate(Fill(bits, lo, hi - 1, v), hi - 1, v);
    }
  }

  ghost predicate FreeRun(bits: seq<bool>, i: nat, cnt: nat) {
    i + cnt <= |bits| && forall j | i <= j < i + cnt :: !bits[j]
  }

  // ----- live runs -----

  predicate Apart(a: Run, b: Run) {
    a.start + a.cnt <= b.start || b.start + b.cnt <= a.start
  }

  predicate Covers(r: Run, i: nat) { r.start <= i < r.start + r.cnt }

  ghost predicate Covered(live: seq<Run>, i: nat) {
    exists k :: 0 <= k < |live| && Covers(live[k], i)
  }

  function Pages(live: seq<Run>): nat {
    if live == [] then 0 else Pages(live[..|live| - 1]) + live[|live| - 1].cnt
  }

  function Without(live: seq<Run>, k: nat): seq<Run>
    requires k < |live|
  {
    live[..k] + live[k + 1..]
  }

  lemma {:induction false} PagesWithout(live: seq<Run>, k: nat)
    requires k < |live|
    ensures Pages(Without(live, k)) == Pages(live) - live[k].cnt
    decreases |live|
  {
    var n := |live| - 1;
    if k == n {
      assert Without(live, k) == live[..n];
    } else {
      PagesWithout(live[..n], k);
      assert Without(live, k)[..n - 1] == Without(live[..n], k);
      assert Without(live, k)[n - 1] == live[n];
    }
  }

  // The bitmap says exactly which pages the live runs cover; runs are in bounds and disjoint, and the set
  // bits number the pages handed out.
  ghost predicate Accounts(bits: seq<bool>, live: seq<Run>) {
    && (forall k | 0 <= k < |live| :: live[k].cnt > 0 && live[k].start + live[k].cnt <= |bits|)
    && Disjoint(live)
    && (forall i | 0 <= i < |bits| :: bits[i] <==> Covered(live, i))
    && Ones(bits) == Pages(live)
  }

  ghost predicate Disjoint(live: seq<Run>) {
    forall a, b | 0 <= a < b < |live| :: Apart(live[a], live[b])
  }

  lemma DisjointWithout(live: seq<Run>, k: nat)
    requires Disjoint(live) && k < |live|
    ensures Disjoint(Without(live, k))
  {
    var live' := Without(live, k);
    forall a, b | 0 <= a < b < |live'|
      ensures Apart(live'[a], live'[b])
    {
      var a', b' := if a < k then a else a + 1, if b < k then b else b + 1;
      assert live'[a] == live[a'] && live'[b] == live[b'];
    }
  }

  lemma AllocAccounts(bits: seq<bool>, live: seq<Run>, i: nat, cnt: nat)
    requires Accounts(bits, live) && cnt > 0 && FreeRun(bits, i, cnt)
    ensures Accounts(Fill(bits, i, i + cnt, true), live + [Run(i, cnt)])
  {
    var bits', live' := Fill(bits, i, i + cnt, true), live + [Run(i, cnt)];
    forall k | 0 <= k < |live|
      ensures Apart(live[k], Run(i, cnt))
    {
      FreeIsApart(bits, live, k, i, cnt);
    }
    forall p | 0 <= p < |bits|
      ensures bits'[p] <==> Covered(live', p)
    {
      AddCover(live, Run(i, cnt), p);
    }
    OnesFill(bits, i, i + cnt, true);
    assert live'[..|live|] == live;
  }

  lemma AddCover(live: seq<Run>, r: Run, p: nat)
    ensures Covered(live + [r], p) <==> Covered(live, p) || Covers(r, p)
  {
    var live' := live + [r];
    if Covered(live, p) {
      var k :| 0 <= k < |live| && Covers(live[k], p);
      assert live'[k] == live[k];
    }
    assert live'[|live|] == r;
  }

  lemma FreeIsApart(bits: seq<bool>, live: seq<Run>, k: nat, i: nat, cnt: nat)
    requires Accounts(bits, live) && cnt > 0 && FreeRun(bits, i, cnt) && k < |live|
    ensures Apart(live[k], Run(i, cnt))
  {
    if !Apart(live[k], Run(i, cnt)) {
      var p := if live[k].start <= i then i else live[k].start;
      assert Covers(live[k], p) && Covered(live, p);
    }
  }

  lemma FreeMatches(bits: seq<bool>, live: seq<Run>, k: nat, p: nat)
    requires k < |live| && Disjoint(live) && p < |bits| && (bits[p] <==> Covered(live, p))
    ensures Fill(bits, live[k].start, live[k].start + live[k].cnt, false)[p] <==> Covered(Without(live, k), p)
    ensures Covers(live[k], p) ==> bits[p]
  {
    RemoveCover(live, k, p);
  }

  lemma FreeAccounts(bits: seq<bool>, live: seq<Run>, k: nat)
    requires Accounts(bits, live) && k < |live|
    ensures Accounts(Fill(bits, live[k].start, live[k].start + live[k].cnt, false), Without(live, k))
  {
    FreeCovers(bits, live, k);
    FreeCounts(bits, live, k);
    DisjointWithout(live, k);
    WithoutFits(bits, live, k);
  }

  lemma WithoutFits(bits: seq<bool>, live: seq<Run>, k: nat)
    requires k < |live| && forall j | 0 <= j < |live| :: live[j].cnt > 0 && live[j].start + live[j].cnt <= |bits|
    ensures var live' := Without(live, k);
      forall j | 0 <= j < |live'| :: live'[j].cnt > 0 && live'[j].start + live'[j].cnt <= |bits|
  {}

  lemma FreeCovers(bits: seq<bool>, live: seq<Run>, k: nat)
    requires k < |live| && Disjoint(live) && forall i | 0 <= i < |bits| :: bits[i] <==> Covered(live, i)
    ensures var bits' := Fill(bits, live[k].start, live[k].start + live[k].cnt, false);
      forall p | 0 <= p < |bits| :: bits'[p] <==> Covered(Without(live, k), p)
  {
    forall p | 0 <= p < |bits|
      ensures Fill(bits, live[k].start, live[k].start + live[k].cnt, false)[p] <==> Covered(Without(live, k), p)
    {
      FreeMatches(bits, live, k, p);
    }
  }

  lemma FreeCounts(bits: seq<bool>, live: seq<Run>, k: nat)
    requires Accounts(bits, live) && k < |live|
    ensures Ones(Fill(bits, live[k].start, live[k].start + live[k].cnt, false)) == Pages(Without(live, k))
  {
    var r := live[k];
    forall p | r.start <= p < r.start + r.cnt
      ensures bits[p]
    {
      assert Covers(r, p);
      FreeMatches(bits, live, k, p);
    }
    OnesFill(bits, r.start, r.start + r.cnt, false);
    PagesWithout(live, k);
  }

  lemma RemoveCover(live: seq<Run>, k: nat, p: nat)
    requires k < |live| && Disjoint(live)
    ensures Covered(Without(live, k), p) <==> Covered(live, p) && !Covers(live[k], p)
    ensures Covers(live[k], p) ==> Covered(live, p)
  {
    var live' := Without(live, k);
    if Covered(live', p) {
      var j :| 0 <= j < |live'| && Covers(live'[j], p);
      WithoutAt(live, k, j);
    }
    if Covered(live, p) && !Covers(live[k], p) {
      var j :| 0 <= j < |live| && Covers(live[j], p);
      WithoutAt(live, k, if j < k then j else j - 1);
    }
  }

  lemma WithoutAt(live: seq<Run>, k: nat, j: nat)
    requires k < |live| && j < |live| - 1
    ensures |Without(live, k)| == |live| - 1 && Without(live, k)[j] == live[if j < k then j else j + 1]
  {}

  // ----- one module -----

  // Page `i` of a module whose first page is physical page `first` starts an aligned block.
  predicate AlignedAt(first: nat, i: nat, align: nat)
    requires align > 0
  {
    (first + i) % align == 0
  }

  // A request that can be served from page `i` on.
  ghost predicate Fits(bits: seq<bool>, first: nat, i: nat, cnt: nat, align: nat)
    requires align > 0
  {
    AlignedAt(first, i, align) && FreeRun(bits, i, cnt)
  }

  class Module {
    const first: nat          // mmap_entry->base / PAGE_SIZE; the base is page-aligned
    var bits: seq<bool>       // the bitmap, bitmap_entry_cnt bits
    var lastFree: nat         // the hint
    ghost var live: seq<Run>  // the runs handed out and not yet freed

    ghost predicate Valid()
      reads this
    {
      lastFree <= |bits| && Accounts(bits, live)
    }

    // pmm_init_module: an empty bitmap.
    constructor (first: nat, pages: nat)
      ensures Valid() && this.first == first && |bits| == pages && live == [] && lastFree == 0
      ensures forall i | 0 <= i < pages :: !bits[i]
    {
      this.first := first;
      bits := seq(pages, _ => false);
      lastFree := 0;
      live := [];
      new;
      NoOnes(bits);
    }

    // The inner scan: is the run of cnt pages from i on free?
    method RunIsFree(i: nat, cnt: nat) returns (free: bool)
      requires i + cnt <= |bits| && cnt > 0
      ensures free <==> FreeRun(bits, i, cnt)
    {
      var j, count := i, 0;
      while j < i + cnt
        invariant i <= j <= i + cnt && count == j - i
        invariant forall k | i <= k < j :: !bits[k]
      {
        if bits[j] { return false; }
        count := count + 1;
        if count == cnt { return true; }
        j := j + 1;
      }
      return true;
    }

    // Marks the run and moves the hint to the first free page behind it, or to 0.
    method Claim(i: nat, cnt: nat)
      requires Valid() && cnt > 0 && FreeRun(bits, i, cnt)
      modifies this
      ensures Valid() && bits == Fill(old(bits), i, i + cnt, true) && live == old(live) + [Run(i, cnt)]
      ensures lastFree == 0 || (i + cnt <= lastFree < |bits| && !bits[lastFree])
      ensures forall z | i + cnt <= z < (if lastFree == 0 then |bits| else lastFree) :: bits[z]
    {
      AllocAccounts(bits, live, i, cnt);
      for z := 0 to cnt
        invariant bits == Fill(old(bits), i, i + z, true) && live == old(live)
      {
        bits := bits[i + z := true];
      }
      live := live + [Run(i, cnt)];
      lastFree := 0;
      var z := i + cnt - 1;
      while z < |bits|
        invariant i + cnt - 1 <= z <= |bits|
        invariant forall y | i + cnt <= y < z :: bits[y]
        invariant bits == Fill(old(bits), i, i + cnt, true) && live == old(live) + [Run(i, cnt)] && lastFree == 0
      {
        if !bits[z] {
          lastFree := z;
          return;
        }
        z := z + 1;
      }
    }

    // The outer loop of pmm_module_alloc: the page index and the address of the run to hand out.
    method FindRun(cnt: nat, align: nat) returns (found: bool, i: nat, allocBase: nat)
      requires align > 0
      ensures !found ==> cnt == 0 || forall k | lastFree <= k :: !Fits(bits, first, k, cnt, align)
      ensures found ==> cnt > 0 && lastFree <= i && Fits(bits, first, i, cnt, align)
      ensures found ==> forall k | lastFree <= k < i :: !Fits(bits, first, k, cnt, align)
      ensures found ==> allocBase == (first + i) * PAGE
    {
      var base := first * PAGE;
      allocBase := AlignUp(base + lastFree * PAGE, align * PAGE);
      FirstCandidate(first, lastFree, align);
      i := (allocBase - base) / PAGE;
      while i < |bits|
        invariant lastFree <= i && AlignedAt(first, i, align)
        invariant cnt > 0 ==> allocBase == base + i * PAGE
        invariant cnt > 0 ==> forall k | lastFree <= k < i :: !Fits(bits, first, k, cnt, align)
      {
        if |bits| < i + cnt {
          return false, i, allocBase;
        }
        if cnt > 0 {
          var free := RunIsFree(i, cnt);
          if free {
            return true, i, allocBase;
          }
          allocBase := allocBase + align * PAGE;
        }
        NextCandidate(first, i, align);
        i := i + align;
      }
      return false, i, allocBase;
    }

    // pmm_module_alloc: the first aligned free run at or after the hint, as a physical address.
    method Alloc(cnt: nat, align: nat) returns (r: Option<nat>)
      requires Valid() && align > 0
      modifies this
      ensures Valid()
      ensures r.None? <==> cnt == 0 || forall i | old(lastFree) <= i :: !old(Fits(bits, first, i, cnt, align))
      ensures r.None? ==> bits == old(bits) && live == old(live) && lastFree == old(lastFree)
      ensures r.Some? ==>
        && |live| == |old(live)| + 1
        && var i := live[|old(live)|].start;
        && live == old(live) + [Run(i, cnt)]
        && old(lastFree) <= i && old(Fits(bits, first, i, cnt, align))
        && (forall k | old(lastFree) <= k < i :: !old(Fits(bits, first, k, cnt, align)))
        && r.value == (first + i) * PAGE && r.value % (align * PAGE) == 0
        && bits == Fill(old(bits), i, i + cnt, true)
        && (lastFree == 0 || (i + cnt <= lastFree < |bits| && !bits[lastFree]))
        && forall z | i + cnt <= z < (if lastFree == 0 then |bits| else lastFree) :: bits[z]
    {
      var found, i, allocBase := FindRun(cnt, align);
      if !found {
        return None;
      }
      AlignedAddress(first, i, align);
      Claim(i, cnt);
      return Some(allocBase);
    }

    // pmm_module_free of a live run; `base` is relative to the module, `k` is the run's place in the list.
    method Free(base: nat, cnt: nat, ghost k: nat)
      requires Valid() && k < |live| && live[k] == Run(DivRoundup(base, PAGE), cnt)
      modifies this
      ensures Valid()
      ensures live == Without(old(live), k) && lastFree == old(lastFree)
      ensures bits == Fill(old(bits), DivRoundup(base, PAGE), DivRoundup(base, PAGE) + cnt, false)
    {
      FreeAccounts(bits, live, k);
      var start := DivRoundup(base, PAGE);
      for i := start to start + cnt
        invariant bits == Fill(old(bits), start, i, false) && live == old(live) && lastFree == old(lastFree)
      {
        bits := bits[i := false];
      }
      live := Without(live, k);
    }
  }

  lemma {:induction false} NoOnes(bits: seq<bool>)
    requires forall i | 0 <= i < |bits| :: !bits[i]
    ensures Ones(bits) == 0
  {
    if bits != [] { NoOnes(bits[..|bits| - 1]); }
  }

  // The rounded-up start address names the first aligned page at or after the hint.
  lemma FirstCandidate(first: nat, hint: nat, align: nat)
    requires align > 0
    ensures var a := AlignUp(first * PAGE + hint * PAGE, align * PAGE); var i := (a - first * PAGE) / PAGE;
      && a == first * PAGE + i * PAGE && hint <= i && AlignedAt(first, i, align)
      && forall k | hint <= k < i :: !AlignedAt(first, k, align)
  {
    var a := AlignUp(first * PAGE + hint * PAGE, align * PAGE);
    AlignUpLeast(first * PAGE + hint * PAGE, align * PAGE);
    var q := DivRoundup(first * PAGE + hint * PAGE, align * PAGE);
    var i := q * align - first;
    assert a == (first + i) * PAGE;
    assert (a - first * PAGE) / PAGE == i;
    MultipleMod(q, align);
    forall k | hint <= k < i
      ensures !AlignedAt(first, k, align)
    {
      if AlignedAt(first, k, align) { NoMultipleBetween(first + k, first + i, align); }
    }
  }

  lemma NextCandidate(first: nat, i: nat, align: nat)
    requires align > 0 && AlignedAt(first, i, align)
    ensures AlignedAt(first, i + align, align)
    ensures forall k | i < k < i + align :: !AlignedAt(first, k, align)
  {
    NextMultiple(first + i, align);
    forall k | i < k < i + align
      ensures !AlignedAt(first, k, align)
    {
      if AlignedAt(first, k, align) { NoMultipleBetween(first + i, first + k, align); }
    }
  }

  lemma AlignedAddress(first: nat, i: nat, align: nat)
    requires align > 0 && AlignedAt(first, i, align)
    ensures (first + i) * PAGE % (align * PAGE) == 0
  {
    var q := (first + i) / align;
    assert (first + i) * PAGE == q * (align * PAGE);
    MultipleMod(q, align * PAGE);
  }

  // A run freed right after it was handed out leaves the bitmap as it was.
  lemma FreeUndoesAlloc(bits: seq<bool>, i: nat, cnt: nat)
    requires FreeRun(bits, i, cnt)
    ensures Fill(Fill(bits, i, i + cnt, true), i, i + cnt, false) == bits
  {}

  // Completeness is relative to the hint: two free pages are refused when the hint is past the first.
  lemma HintHidesFreeRun(first: nat)
    ensures var bits := [false, false];
      && Fits(bits, first, 0, 2, 1)
      && forall i | 1 <= i :: !Fits(bits, first, i, 2, 1)
  {}

  // Such a hint is soon reached: after one page was handed out and freed, two free pages are refused.
  method HintRun(first: nat) returns (r: Option<nat>, m: Module)
    ensures r == None && fresh(m) && m.Valid() && m.live == [] && m.bits == [false, false]
  {
    m := new Module(first, 2);
    assert AlignedAt(first, 0, 1) && Fits(m.bits, first, 0, 1, 1);
    r := m.Alloc(1, 1);
    assert m.live == [Run(0, 1)] && !m.bits[1] && m.lastFree == 1;
    m.Free(0, 1, 0);
    assert m.bits == [false, false];
    r := m.Alloc(2, 1);
  }

  // No aligned free run of the module starts at or after its hint.
  ghost predicate Refuses(m: Module, cnt: nat, align: nat)
    requires align > 0
    reads m
  {
    forall i | m.lastFree <= i :: !Fits(m.bits, m.first, i, cnt, align)
  }

  // pmm_alloc: the modules are tried in order; each is asked once, and the first that has a run gives it.
  method AllocAny(modules: seq<Module>, cnt: nat, align: nat) returns (r: Option<nat>, at: nat)
    requires align > 0 && |modules| > 0
    requires forall m | m in modules :: m.Valid()
    requires forall a, b | 0 <= a < b < |modules| :: modules[a] != modules[b]
    modifies modules
    ensures forall m | m in modules :: m.Valid()
    ensures r.None? <==> cnt == 0 || forall a | 0 <= a < |modules| :: old(Refuses(modules[a], cnt, align))
    ensures r.None? ==> forall m | m in modules :: m.live == old(m.live) && m.bits == old(m.bits)
    ensures r.Some? ==> at < |modules| && var m := modules[at];
      && |m.live| == |old(m.live)| + 1
      && var i := m.live[|old(m.live)|].start;
      && m.live == old(m.live) + [Run(i, cnt)] && r.value == (m.first + i) * PAGE
      && r.value % (align * PAGE) == 0
      && old(m.lastFree) <= i && old(Fits(m.bits, m.first, i, cnt, align))
      && (forall o | o in modules && o != m :: o.live == old(o.live) && o.bits == old(o.bits))
    ensures r.Some? ==> forall a | 0 <= a < at :: old(Refuses(modules[a], cnt, align))
  {
    at := 0;
    while at < |modules|
      invariant at <= |modules|
      invariant forall m | m in modules ::
        m.Valid() && m.bits == old(m.bits) && m.live == old(m.live) && m.lastFree == old(m.lastFree)
      invariant forall a | 0 <= a < at :: cnt == 0 || old(Refuses(modules[a], cnt, align))
    {
      r := modules[at].Alloc(cnt, align);
      if r.Some? {
        return;
      }
      at := at + 1;
    }
    r := None;
  }
}
