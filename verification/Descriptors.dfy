// Descriptor tables, descriptor bitmaps and file-handle reference counts of kernel/fs/fd.c, fd.h and the
// descriptor part of syscall_fork, over any number of tasks.
module Descriptors {
  import opened Arith

  type Pid = nat
  type File = nat   // a struct file_handle

  // Descriptor number `fd` of task `pid`.
  datatype Slot = Slot(pid: Pid, fd: nat)

  // A task's fd_bitmap: the numbers whose bit is set, and the size field. The data holds 8 * size bits, but the size
  // is compared with bit numbers when freeing and counted in bits when copying.
  datatype Bitset = Bitset(used: set<nat>, size: nat)

  datatype State = State(
    fds: map<Slot, File>,        // the fd_list of every task
    bits: map<Pid, Bitset>,      // the fd_bitmap of every task
    refs: map<File, int>)        // refcnt of every handle that is not freed

  // ----- the bitmap -----

  // bitmap_alloc returns the lowest clear bit; if every bit of the data is set, the first bit of the grown data.
  ghost predicate Lowest(used: set<nat>, fd: nat) {
    fd !in used && forall k | 0 <= k < fd :: k in used
  }

  ghost predicate Allocated(b: Bitset, fd: nat) {
    Lowest(b.used, fd) && fd <= 8 * b.size
  }

  function Take(b: Bitset, fd: nat): Bitset {
    Bitset(b.used + {fd}, if fd < 8 * b.size then b.size else b.size + 0x200)
  }

  // bitmap_free ignores numbers above the size field.
  function Release(b: Bitset, fd: nat): Bitset {
    if fd > b.size then b else Bitset(b.used - {fd}, b.size)
  }

  // The number of bits that bitmap_dup copies.
  function CopiedBits(size: nat): nat { 8 * DivRoundup(size, 8) }

  // bitmap_dup; `beyond` is what the memory behind the copied bytes holds.
  ghost function Copy(b: Bitset, beyond: set<nat>): Bitset {
    var copied := set k | k in b.used && k < CopiedBits(b.size);
    var rest := set k | k in beyond && CopiedBits(b.size) <= k < 8 * b.size;
    Bitset(copied + rest, b.size)
  }

  // ----- the steps -----

  // file_get
  function Get(refs: map<File, int>, f: File): map<File, int>
    requires f in refs
  {
    refs[f := refs[f] + 1]
  }

  // file_put: the handle is freed when its count reaches 0.
  function Put(refs: map<File, int>, f: File): map<File, int>
    requires f in refs
  {
    if refs[f] - 1 == 0 then refs - {f} else refs[f := refs[f] - 1]
  }

  // The descriptor part of fd_openat, with the number that bitmap_alloc returned.
  function Open(s: State, p: Pid, fd: nat, f: File): State
    requires p in s.bits
  {
    State(s.fds[Slot(p, fd) := f], s.bits[p := Take(s.bits[p], fd)], s.refs[f := 1])
  }

  // fd_close_unlocked
  function Close(s: State, x: Slot): State
    requires x in s.fds && x.pid in s.bits && s.fds[x] in s.refs
  {
    State(s.fds - {x}, s.bits[x.pid := Release(s.bits[x.pid], x.fd)], Put(s.refs, s.fds[x]))
  }

  // fd_dup of an open descriptor, onto the number that bitmap_alloc returned.
  function Dup(s: State, x: Slot, fd: nat): State
    requires x in s.fds && x.pid in s.bits && s.fds[x] in s.refs
  {
    State(s.fds[Slot(x.pid, fd) := s.fds[x]], s.bits[x.pid := Take(s.bits[x.pid], fd)], Get(s.refs, s.fds[x]))
  }

  // fd_dup2 of an open descriptor onto another number: the count goes up before the target is closed.
  function Dup2(s: State, x: Slot, fd: nat): State
    requires x in s.fds && x.pid in s.bits && s.fds[x] in s.refs
    requires fd in s.bits[x.pid].used ==> Slot(x.pid, fd) in s.fds && s.fds[Slot(x.pid, fd)] in s.refs
  {
    var y := Slot(x.pid, fd);
    var s1 := s.(refs := Get(s.refs, s.fds[x]));
    var s2 := if fd in s.bits[x.pid].used then Close(s1, y) else s1;
    var b := s2.bits[x.pid];
    State(s2.fds[y := s.fds[x]], s2.bits[x.pid := Bitset(b.used + {fd}, b.size)], s2.refs)
  }

  // One round of the descriptor loop of syscall_fork.
  function Inherit(s: State, x: Slot, child: Pid): State
    requires x in s.fds && s.fds[x] in s.refs
  {
    s.(fds := s.fds[Slot(child, x.fd) := s.fds[x]], refs := Get(s.refs, s.fds[x]))
  }

  function InheritAll(s: State, parent: Pid, child: Pid, order: seq<nat>): State {
    if order == [] then s
    else
      var t := InheritAll(s, parent, child, order[..|order| - 1]);
      var x := Slot(parent, order[|order| - 1]);
      if x in t.fds && t.fds[x] in t.refs then Inherit(t, x, child) else t
  }

  // The loop, in the order of the parent's table, and bitmap_dup.
  ghost function Fork(s: State, parent: Pid, child: Pid, order: seq<nat>, beyond: set<nat>): State
    requires parent in s.bits
  {
    var t := InheritAll(s, parent, child, order);
    t.(bits := t.bits[child := Copy(s.bits[parent], beyond)])
  }

  // ----- the invariant -----

  ghost function Naming(fds: map<Slot, File>, f: File): set<Slot> {
    set x | x in fds && fds[x] == f
  }

  // Each count is the number of descriptors naming the handle, in all tasks; a handle exists exactly as long as
  // some descriptor names it.
  ghost predicate Counted(fds: map<Slot, File>, refs: map<File, int>) {
    && (forall x | x in fds :: fds[x] in refs)
    && (forall f | f in refs :: refs[f] == |Naming(fds, f)| && refs[f] > 0)
  }

  ghost predicate Sane(s: State) {
    Counted(s.fds, s.refs) && forall x | x in s.fds :: x.pid in s.bits
  }

  // The bits lie in the data, and every descriptor belongs to a task and has its bit set.
  ghost predicate Backed(fds: map<Slot, File>, bits: map<Pid, Bitset>) {
    && (forall p, k | p in bits && k in bits[p].used :: k < 8 * bits[p].size)
    && (forall x | x in fds :: x.pid in bits && x.fd in bits[x.pid].used)
  }

  // A bit of a task's data below `n` is set exactly when the table holds that descriptor.
  ghost predicate AgreesTo(fds: map<Slot, File>, p: Pid, b: Bitset, n: nat) {
    forall fd | 0 <= fd < n :: fd in b.used <==> Slot(p, fd) in fds
  }

  // Every bitmap agrees with its table, all through its data.
  ghost predicate Tracked(fds: map<Slot, File>, bits: map<Pid, Bitset>) {
    && Backed(fds, bits)
    && forall p | p in bits :: AgreesTo(fds, p, bits[p], 8 * bits[p].size)
  }

  ghost predicate Inv(s: State) { Counted(s.fds, s.refs) && Tracked(s.fds, s.bits) }

  // The same below the size field, where all descriptors are.
  ghost predicate Low(fds: map<Slot, File>, bits: map<Pid, Bitset>) {
    && Backed(fds, bits)
    && (forall x | x in fds :: x.fd < bits[x.pid].size)
    && (forall p | p in bits :: bits[p].size % 0x200 == 0)
    && forall p | p in bits :: AgreesTo(fds, p, bits[p], bits[p].size)
  }

  ghost predicate LowInv(s: State) { Counted(s.fds, s.refs) && Low(s.fds, s.bits) }

  // ----- counting -----

  lemma NamingAdd(fds: map<Slot, File>, x: Slot, f: File, g: File)
    requires x !in fds
    ensures |Naming(fds[x := f], g)| == |Naming(fds, g)| + if f == g then 1 else 0
  {
    assert Naming(fds[x := f], g) == if f == g then Naming(fds, g) + {x} else Naming(fds, g);
  }

  lemma NamingRemove(fds: map<Slot, File>, x: Slot, g: File)
    requires x in fds
    ensures |Naming(fds - {x}, g)| == |Naming(fds, g)| - if fds[x] == g then 1 else 0
  {
    if fds[x] == g {
      assert x in Naming(fds, g);
      assert Naming(fds - {x}, g) == Naming(fds, g) - {x};
    } else {
      assert Naming(fds - {x}, g) == Naming(fds, g);
    }
  }

  lemma AddCounted(fds: map<Slot, File>, refs: map<File, int>, x: Slot, f: File)
    requires Counted(fds, refs) && x !in fds
    ensures f in refs ==> Counted(fds[x := f], Get(refs, f))
    ensures f !in refs ==> Counted(fds[x := f], refs[f := 1])
  {
    var refs' := if f in refs then Get(refs, f) else refs[f := 1];
    if f !in refs { assert Naming(fds, f) == {}; }
    forall g | g in refs'
      ensures refs'[g] == |Naming(fds[x := f], g)| && refs'[g] > 0
    {
      NamingAdd(fds, x, f, g);
    }
  }

  lemma RemoveCounted(fds: map<Slot, File>, refs: map<File, int>, x: Slot)
    requires Counted(fds, refs) && x in fds
    ensures Counted(fds - {x}, Put(refs, fds[x]))
  {
    var refs' := Put(refs, fds[x]);
    forall g | g in refs
      ensures g in refs' ==> refs'[g] == |Naming(fds - {x}, g)| && refs'[g] > 0
      ensures g !in refs' ==> Naming(fds - {x}, g) == {}
    {
      NamingRemove(fds, x, g);
    }
    forall y | y in fds - {x}
      ensures fds[y] in refs'
    {
      assert y in Naming(fds - {x}, fds[y]);
    }
  }

  // ----- counts -----

  lemma OpenCounts(s: State, p: Pid, fd: nat, f: File)
    requires Counted(s.fds, s.refs) && Backed(s.fds, s.bits) && p in s.bits && fd !in s.bits[p].used && f !in s.refs
    ensures Counted(Open(s, p, fd, f).fds, Open(s, p, fd, f).refs)
  {
    AddCounted(s.fds, s.refs, Slot(p, fd), f);
  }

  // A handle is freed exactly at the close of the last descriptor naming it.
  lemma CloseCounts(s: State, x: Slot)
    requires Counted(s.fds, s.refs) && x in s.fds && x.pid in s.bits
    ensures s.fds[x] in s.refs && Counted(Close(s, x).fds, Close(s, x).refs)
    ensures s.fds[x] !in Close(s, x).refs <==> Naming(s.fds, s.fds[x]) == {x}
  {
    RemoveCounted(s.fds, s.refs, x);
    NamingRemove(s.fds, x, s.fds[x]);
    var n := Naming(s.fds, s.fds[x]);
    assert x in n && n == {x} + (n - {x}) && |n| == 1 + |n - {x}|;
  }

  lemma DupCounts(s: State, x: Slot, fd: nat)
    requires Counted(s.fds, s.refs) && x in s.fds && x.pid in s.bits && Slot(x.pid, fd) !in s.fds
    ensures s.fds[x] in s.refs && Counted(Dup(s, x, fd).fds, Dup(s, x, fd).refs)
  {
    AddCounted(s.fds, s.refs, Slot(x.pid, fd), s.fds[x]);
  }

  // Taking a reference to one handle and dropping one to another can be done in either order.
  lemma GetPutCommute(refs: map<File, int>, f: File, g: File)
    requires f in refs && g in refs && f != g
    ensures f in Put(refs, g) && g in Get(refs, f) && Put(Get(refs, f), g) == Get(Put(refs, g), f)
  {}

  // What dup2 asks of its target: a number in the data, and a handle behind it if its bit is set.
  ghost predicate Targets(s: State, x: Slot, fd: nat) {
    && Counted(s.fds, s.refs) && x in s.fds && x.pid in s.bits && s.fds[x] in s.refs && fd < 8 * s.bits[x.pid].size
    && (fd in s.bits[x.pid].used ==> Slot(x.pid, fd) in s.fds && s.fds[Slot(x.pid, fd)] in s.refs)
  }

  // Onto an alias of itself, dup2 changes nothing: the handle is never freed in between.
  lemma Dup2OnAlias(s: State, x: Slot, fd: nat)
    requires Targets(s, x, fd) && fd in s.bits[x.pid].used && s.fds[Slot(x.pid, fd)] == s.fds[x]
    ensures Dup2(s, x, fd) == s
  {
    var p, y := x.pid, Slot(x.pid, fd);
    var b := s.bits[p];
    assert (s.fds - {y})[y := s.fds[x]] == s.fds;
    assert Release(b, fd).used + {fd} == b.used;
    assert s.bits[p := Release(b, fd)][p := b] == s.bits;
    assert Put(Get(s.refs, s.fds[x]), s.fds[x]) == s.refs;
  }

  // Otherwise it is a close of the target, if its bit is set, followed by a dup onto its number.
  lemma Dup2IsCloseDup(s: State, x: Slot, fd: nat)
    requires Targets(s, x, fd) && x.fd != fd
    requires fd in s.bits[x.pid].used ==> s.fds[Slot(x.pid, fd)] != s.fds[x]
    ensures var t := if fd in s.bits[x.pid].used then Close(s, Slot(x.pid, fd)) else s;
      && x in t.fds && x.pid in t.bits && t.fds[x] in t.refs && Dup2(s, x, fd) == Dup(t, x, fd)
  {
    var y := Slot(x.pid, fd);
    if fd in s.bits[x.pid].used { GetPutCommute(s.refs, s.fds[x], s.fds[y]); }
  }

  lemma Dup2Counts(s: State, x: Slot, fd: nat)
    requires Targets(s, x, fd) && Backed(s.fds, s.bits) && x.fd != fd
    ensures Counted(Dup2(s, x, fd).fds, Dup2(s, x, fd).refs)
  {
    var y := Slot(x.pid, fd);
    if fd in s.bits[x.pid].used && s.fds[y] == s.fds[x] {
      Dup2OnAlias(s, x, fd);
    } else {
      Dup2IsCloseDup(s, x, fd);
      if fd in s.bits[x.pid].used {
        CloseCounts(s, y);
        DupCounts(Close(s, y), x, fd);
      } else {
        DupCounts(s, x, fd);
      }
    }
  }

  // ----- fork -----

  ghost predicate Lists(fds: map<Slot, File>, parent: Pid, order: seq<nat>) {
    && (forall i, j | 0 <= i < j < |order| :: order[i] != order[j])
    && (forall fd :: fd in order <==> Slot(parent, fd) in fds)
  }

  // The child's table holds exactly the descriptors met so far.
  ghost predicate Inherited(fds: map<Slot, File>, fds': map<Slot, File>, parent: Pid, child: Pid, order: seq<nat>) {
    && (forall x: Slot | x.pid != child :: x in fds' <==> x in fds)
    && (forall x: Slot | x.pid != child && x in fds :: fds'[x] == fds[x])
    && (forall fd :: Slot(child, fd) in fds' <==> fd in order)
    && (forall fd | fd in order :: Slot(parent, fd) in fds && fds'[Slot(child, fd)] == fds[Slot(parent, fd)])
  }

  lemma {:induction false} InheritAllKeeps(s: State, parent: Pid, child: Pid, order: seq<nat>)
    requires Counted(s.fds, s.refs) && parent != child
    requires forall i, j | 0 <= i < j < |order| :: order[i] != order[j]
    requires forall fd | fd in order :: Slot(parent, fd) in s.fds
    requires forall x | x in s.fds :: x.pid != child
    ensures var t := InheritAll(s, parent, child, order);
      Counted(t.fds, t.refs) && t.bits == s.bits && Inherited(s.fds, t.fds, parent, child, order)
  {
    if order != [] {
      var init, fd := order[..|order| - 1], order[|order| - 1];
      assert order == init + [fd] && fd in order;
      InheritAllKeeps(s, parent, child, init);
      var t := InheritAll(s, parent, child, init);
      var x := Slot(parent, fd);
      assert x in t.fds && t.fds[x] in t.refs;
      assert Slot(child, fd) !in t.fds;
      AddCounted(t.fds, t.refs, Slot(child, fd), t.fds[x]);
      InheritStep(s.fds, t.fds, parent, child, init, fd);
    }
  }

  lemma InheritStep(fds: map<Slot, File>, fds': map<Slot, File>, parent: Pid, child: Pid, init: seq<nat>, fd: nat)
    requires Inherited(fds, fds', parent, child, init) && Slot(parent, fd) in fds && parent != child
    requires Slot(parent, fd) in fds'
    ensures Inherited(fds, fds'[Slot(child, fd) := fds'[Slot(parent, fd)]], parent, child, init + [fd])
  {}

  // What fork asks: a child that does not exist yet, and the parent's table in some order.
  ghost predicate Forkable(s: State, parent: Pid, child: Pid, order: seq<nat>) {
    Sane(s) && parent in s.bits && child !in s.bits && Lists(s.fds, parent, order)
  }

  // One round of the fork loop.
  lemma InheritNext(s: State, parent: Pid, child: Pid, order: seq<nat>, i: nat)
    requires Forkable(s, parent, child, order) && i < |order|
    ensures var t := InheritAll(s, parent, child, order[..i]);
      var x := Slot(parent, order[i]);
      && x in t.fds && t.fds[x] in t.refs && t.bits == s.bits
      && InheritAll(s, parent, child, order[..i + 1])
         == State(t.fds[Slot(child, order[i]) := t.fds[x]], t.bits, Get(t.refs, t.fds[x]))
  {
    InheritAllKeeps(s, parent, child, order[..i]);
    assert order[..i + 1][..i] == order[..i];
    assert order[i] in order;
  }

  // The child names exactly what the parent names.
  lemma ForkCounts(s: State, parent: Pid, child: Pid, order: seq<nat>, beyond: set<nat>)
    requires Forkable(s, parent, child, order)
    ensures var t := Fork(s, parent, child, order, beyond);
      Counted(t.fds, t.refs) && Inherited(s.fds, t.fds, parent, child, order)
      && t.bits == s.bits[child := Copy(s.bits[parent], beyond)]
  {
    InheritAllKeeps(s, parent, child, order);
  }

  // ----- calls -----

  datatype Event =
    | OpenCall(p: Pid, fd: nat, f: File)
    | CloseCall(x: Slot)
    | DupCall(x: Slot, fd: nat)
    | Dup2Call(x: Slot, fd: nat)
    | ForkCall(parent: Pid, child: Pid, order: seq<nat>, beyond: set<nat>)

  // What a call needs to stay in the kernel's data: dup2 reads and writes the bit of its target, and closes the target
  // if the bit is set, without looking whether the table holds it.
  ghost predicate Enabled(s: State, e: Event) {
    Sane(s) &&
    match e
    case OpenCall(p, fd, f) => p in s.bits && Allocated(s.bits[p], fd) && f !in s.refs
    case CloseCall(x) => x.pid in s.bits
    case DupCall(x, fd) => x.pid in s.bits && Allocated(s.bits[x.pid], fd)
    case Dup2Call(x, fd) => x.pid in s.bits && (x in s.fds && x.fd != fd ==> Targets(s, x, fd))
    case ForkCall(parent, child, order, beyond) => Forkable(s, parent, child, order)
  }

  // Calls on a descriptor that is not open fail with EBADF and change nothing; dup2 onto itself does nothing.
  ghost function Next(s: State, e: Event): State
    requires Enabled(s, e)
  {
    match e
    case OpenCall(p, fd, f) => Open(s, p, fd, f)
    case CloseCall(x) => if x in s.fds then Close(s, x) else s
    case DupCall(x, fd) => if x in s.fds then Dup(s, x, fd) else s
    case Dup2Call(x, fd) => if x in s.fds && x.fd != fd then Dup2(s, x, fd) else s
    case ForkCall(parent, child, order, beyond) => Fork(s, parent, child, order, beyond)
  }

  // As long as every descriptor has its bit set, every call keeps the counts right.
  lemma StepCounts(s: State, e: Event)
    requires Enabled(s, e) && Backed(s.fds, s.bits)
    ensures Counted(Next(s, e).fds, Next(s, e).refs)
  {
    match e
    case OpenCall(p, fd, f) => OpenCounts(s, p, fd, f);
    case CloseCall(x) => if x in s.fds { CloseCounts(s, x); }
    case DupCall(x, fd) => if x in s.fds { DupCounts(s, x, fd); }
    case Dup2Call(x, fd) => if x in s.fds && x.fd != fd { Dup2Counts(s, x, fd); }
    case ForkCall(parent, child, order, beyond) => ForkCounts(s, parent, child, order, beyond);
  }

  // ----- which descriptor names what -----

  // Of all descriptors and counts, a call changes these.
  ghost predicate Renamed(s: State, t: State, x: Slot, f: File) { t.fds == s.fds[x := f] }

  ghost predicate Recounted(s: State, t: State, f: File, n: int) {
    && (forall g | g != f :: g in t.refs <==> g in s.refs)
    && (forall g | g != f && g in s.refs :: t.refs[g] == s.refs[g])
    && (if n == 0 then f !in t.refs else f in t.refs && t.refs[f] == n)
  }

  // The new number names the new handle, which has one reference.
  lemma OpenNames(s: State, p: Pid, fd: nat, f: File)
    requires Enabled(s, OpenCall(p, fd, f))
    ensures var t := Next(s, OpenCall(p, fd, f)); Renamed(s, t, Slot(p, fd), f) && Recounted(s, t, f, 1)
  {}

  // Only the descriptor closed goes, and its handle has one reference less, or is gone.
  lemma CloseForgets(s: State, x: Slot)
    requires Enabled(s, CloseCall(x))
    ensures var t := Next(s, CloseCall(x));
      && t.fds == s.fds - {x}
      && (x in s.fds ==> s.fds[x] in s.refs && Recounted(s, t, s.fds[x], s.refs[s.fds[x]] - 1))
      && (x !in s.fds ==> t == s)
  {}

  // The new number names the handle of the old one, which has one reference more.
  lemma DupNames(s: State, x: Slot, fd: nat)
    requires Enabled(s, DupCall(x, fd))
    ensures var t := Next(s, DupCall(x, fd));
      && (x in s.fds ==> s.fds[x] in s.refs && Renamed(s, t, Slot(x.pid, fd), s.fds[x])
                         && Recounted(s, t, s.fds[x], s.refs[s.fds[x]] + 1))
      && (x !in s.fds ==> t == s)
  {}

  // So does the number given to dup2; what it named before has one reference less.
  lemma Dup2Names(s: State, x: Slot, fd: nat)
    requires Enabled(s, Dup2Call(x, fd))
    ensures var t, y := Next(s, Dup2Call(x, fd)), Slot(x.pid, fd);
      && (x in s.fds ==> Renamed(s, t, y, s.fds[x]))
      && (x !in s.fds || x.fd == fd ==> t == s)
      && (x in s.fds && x.fd != fd && fd !in s.bits[x.pid].used ==>
            s.fds[x] in s.refs && Recounted(s, t, s.fds[x], s.refs[s.fds[x]] + 1))
      && (x in s.fds && x.fd != fd && fd in s.bits[x.pid].used && s.fds[x] != s.fds[y] ==>
            && s.fds[x] in s.refs && s.fds[y] in s.refs && s.fds[x] in t.refs
            && t.refs[s.fds[x]] == s.refs[s.fds[x]] + 1
            && Recounted(s.(refs := s.refs[s.fds[x] := t.refs[s.fds[x]]]), t, s.fds[y], s.refs[s.fds[y]] - 1))
  {
    if x in s.fds && x.fd != fd { Dup2Effect(s, x, fd); }
  }

  // ----- the bitmaps, exactly -----

  // The calls after which the bitmaps still agree with the tables: a close of a number up to the size field, and a
  // fork whose child finds the parent's bits also in the memory behind the copy.
  ghost predicate Safe(s: State, e: Event) {
    match e
    case CloseCall(x) => x in s.fds && x.pid in s.bits ==> x.fd <= s.bits[x.pid].size
    case ForkCall(parent, child, order, beyond) => parent in s.bits ==>
      var b := s.bits[parent];
      forall k | CopiedBits(b.size) <= k < 8 * b.size :: k in beyond <==> k in b.used
    case _ => true
  }

  lemma CopiedFits(size: nat)
    ensures size <= CopiedBits(size) && (size > 0 ==> CopiedBits(size) <= 8 * size)
  {}

  lemma TakeTracks(fds: map<Slot, File>, bits: map<Pid, Bitset>, p: Pid, fd: nat, f: File)
    requires Tracked(fds, bits) && p in bits && Allocated(bits[p], fd)
    ensures Tracked(fds[Slot(p, fd) := f], bits[p := Take(bits[p], fd)])
  {
    var fds', bits' := fds[Slot(p, fd) := f], bits[p := Take(bits[p], fd)];
    forall q | q in bits'
      ensures AgreesTo(fds', q, bits'[q], 8 * bits'[q].size)
    {
      assert AgreesTo(fds, q, bits[q], 8 * bits[q].size);
    }
  }

  lemma CloseAgrees(fds: map<Slot, File>, b: Bitset, x: Slot, q: Pid)
    requires AgreesTo(fds, q, b, 8 * b.size) && (q == x.pid ==> x.fd <= b.size)
    ensures AgreesTo(fds - {x}, q, if q == x.pid then Release(b, x.fd) else b, 8 * b.size)
  {}

  lemma CloseBacked(s: State, x: Slot)
    requires Backed(s.fds, s.bits) && x in s.fds && x.pid in s.bits && s.fds[x] in s.refs
    ensures Backed(Close(s, x).fds, Close(s, x).bits) && Close(s, x).bits.Keys == s.bits.Keys
  {}

  lemma CloseTracks(s: State, x: Slot)
    requires Inv(s) && x in s.fds && x.pid in s.bits && s.fds[x] in s.refs
    ensures Tracked(Close(s, x).fds, Close(s, x).bits) <==> x.fd <= s.bits[x.pid].size
  {
    var t := Close(s, x);
    CloseBacked(s, x);
    if x.fd > s.bits[x.pid].size {
      assert AgreesTo(s.fds, x.pid, s.bits[x.pid], 8 * s.bits[x.pid].size);
      assert x.fd in t.bits[x.pid].used && !AgreesTo(t.fds, x.pid, t.bits[x.pid], 8 * t.bits[x.pid].size);
    } else {
      forall q | q in s.bits
        ensures AgreesTo(t.fds, q, t.bits[q], 8 * t.bits[q].size)
      {
        assert AgreesTo(s.fds, q, s.bits[q], 8 * s.bits[q].size);
        CloseAgrees(s.fds, s.bits[q], x, q);
      }
    }
  }

  // The target's bit ends up set, whatever the close made of it.
  lemma Dup2Effect(s: State, x: Slot, fd: nat)
    requires Targets(s, x, fd)
    ensures var t, b := Dup2(s, x, fd), s.bits[x.pid];
      t.fds == s.fds[Slot(x.pid, fd) := s.fds[x]] && t.bits == s.bits[x.pid := Bitset(b.used + {fd}, b.size)]
  {
    var b := s.bits[x.pid];
    assert Release(b, fd).used + {fd} == b.used + {fd};
  }

  lemma Dup2Tracks(s: State, x: Slot, fd: nat)
    requires Inv(s) && Targets(s, x, fd)
    ensures Tracked(Dup2(s, x, fd).fds, Dup2(s, x, fd).bits)
  {
    Dup2Effect(s, x, fd);
    SetTracks(s.fds, s.bits, x.pid, fd, s.fds[x]);
  }

  lemma SetTracks(fds: map<Slot, File>, bits: map<Pid, Bitset>, p: Pid, fd: nat, f: File)
    requires Tracked(fds, bits) && p in bits && fd < 8 * bits[p].size
    ensures Tracked(fds[Slot(p, fd) := f], bits[p := Bitset(bits[p].used + {fd}, bits[p].size)])
  {
    var fds', bits' := fds[Slot(p, fd) := f], bits[p := Bitset(bits[p].used + {fd}, bits[p].size)];
    forall q | q in bits'
      ensures AgreesTo(fds', q, bits'[q], 8 * bits'[q].size)
    {
      assert AgreesTo(fds, q, bits[q], 8 * bits[q].size);
    }
  }

  lemma ForkTracks(s: State, parent: Pid, child: Pid, order: seq<nat>, beyond: set<nat>)
    requires Inv(s) && Forkable(s, parent, child, order)
    ensures var t := Fork(s, parent, child, order, beyond);
      Tracked(t.fds, t.bits) <==> Safe(s, ForkCall(parent, child, order, beyond))
  {
    ForkCounts(s, parent, child, order, beyond);
    var t, b := Fork(s, parent, child, order, beyond), s.bits[parent];
    assert AgreesTo(s.fds, parent, b, 8 * b.size);
    OthersTrack(s, t, parent, child, order);
    ChildTracks(s, t, parent, child, order, beyond);
    assert t.bits[child].size == b.size && t.bits.Keys == s.bits.Keys + {child};
    if AgreesTo(t.fds, child, t.bits[child], 8 * b.size) {
      ChildBacked(s, t, parent, child, order);
      BitsInData(s, t, child, beyond, parent);
      assert Tracked(t.fds, t.bits);
    } else {
      assert !Tracked(t.fds, t.bits);
    }
  }

  lemma BitsInData(s: State, t: State, child: Pid, beyond: set<nat>, parent: Pid)
    requires Backed(s.fds, s.bits) && parent in s.bits && t.bits == s.bits[child := Copy(s.bits[parent], beyond)]
    ensures forall p, k | p in t.bits && k in t.bits[p].used :: k < 8 * t.bits[p].size
  {}

  lemma OthersTrack(s: State, t: State, parent: Pid, child: Pid, order: seq<nat>)
    requires Tracked(s.fds, s.bits) && child !in s.bits && Inherited(s.fds, t.fds, parent, child, order)
    requires child in t.bits && t.bits == s.bits[child := t.bits[child]]
    ensures forall q | q in s.bits :: AgreesTo(t.fds, q, t.bits[q], 8 * t.bits[q].size)
  {
    forall q | q in s.bits
      ensures AgreesTo(t.fds, q, t.bits[q], 8 * t.bits[q].size)
    {
      assert AgreesTo(s.fds, q, s.bits[q], 8 * s.bits[q].size);
    }
  }

  lemma ChildBacked(s: State, t: State, parent: Pid, child: Pid, order: seq<nat>)
    requires Backed(s.fds, s.bits) && Inherited(s.fds, t.fds, parent, child, order) && parent in s.bits
    requires child in t.bits
    requires t.bits == s.bits[child := t.bits[child]] && AgreesTo(t.fds, child, t.bits[child], 8 * s.bits[parent].size)
    requires child !in s.bits
    ensures forall x | x in t.fds :: x.pid in t.bits && x.fd in t.bits[x.pid].used
  {
    forall x | x in t.fds
      ensures x.pid in t.bits && x.fd in t.bits[x.pid].used
    {
      if x.pid == child {
        assert x.fd in order && Slot(parent, x.fd) in s.fds;
      } else {
        assert x in s.fds;
      }
    }
  }

  lemma ChildTracks(s: State, t: State, parent: Pid, child: Pid, order: seq<nat>, beyond: set<nat>)
    requires parent in s.bits && child !in s.bits && Lists(s.fds, parent, order)
    requires Inherited(s.fds, t.fds, parent, child, order)
    requires AgreesTo(s.fds, parent, s.bits[parent], 8 * s.bits[parent].size)
    ensures var b := s.bits[parent];
      AgreesTo(t.fds, child, Copy(b, beyond), 8 * b.size) <==>
      forall k | CopiedBits(b.size) <= k < 8 * b.size :: k in beyond <==> k in b.used
  {
    var b := s.bits[parent];
    forall k | 0 <= k < 8 * b.size
      ensures Slot(child, k) in t.fds <==> k in b.used
      ensures k in Copy(b, beyond).used <==> if k < CopiedBits(b.size) then k in b.used else k in beyond
    {
      assert k in order <==> Slot(parent, k) in s.fds;
    }
  }

  // The bitmaps stay right exactly for the safe calls; the counts are right after every call.
  lemma StepTracks(s: State, e: Event)
    requires Inv(s) && Enabled(s, e)
    ensures Counted(Next(s, e).fds, Next(s, e).refs)
    ensures Inv(Next(s, e)) <==> Safe(s, e)
  {
    StepCounts(s, e);
    match e
    case OpenCall(p, fd, f) => TakeTracks(s.fds, s.bits, p, fd, f);
    case CloseCall(x) => if x in s.fds { CloseTracks(s, x); }
    case DupCall(x, fd) => if x in s.fds { TakeTracks(s.fds, s.bits, x.pid, fd, s.fds[x]); }
    case Dup2Call(x, fd) => if x in s.fds && x.fd != fd { Dup2Tracks(s, x, fd); }
    case ForkCall(parent, child, order, beyond) => ForkTracks(s, parent, child, order, beyond);
  }

  // ----- numbers below the size field -----

  // The calls that name or are given a number below the size field.
  ghost predicate Below(s: State, e: Event) {
    match e
    case OpenCall(p, fd, f) => p in s.bits ==> fd < Take(s.bits[p], fd).size
    case DupCall(x, fd) => x in s.fds && x.pid in s.bits ==> fd < Take(s.bits[x.pid], fd).size
    case Dup2Call(x, fd) => x in s.fds && x.fd != fd && x.pid in s.bits ==> fd < s.bits[x.pid].size
    case _ => true
  }

  lemma TakeLow(fds: map<Slot, File>, bits: map<Pid, Bitset>, p: Pid, fd: nat, f: File)
    requires Low(fds, bits) && p in bits && Allocated(bits[p], fd)
    ensures Low(fds[Slot(p, fd) := f], bits[p := Take(bits[p], fd)]) <==> fd < Take(bits[p], fd).size
  {
    var fds', bits' := fds[Slot(p, fd) := f], bits[p := Take(bits[p], fd)];
    assert Slot(p, fd) in fds';
    if fd < Take(bits[p], fd).size {
      forall q | q in bits'
        ensures AgreesTo(fds', q, bits'[q], bits'[q].size)
      {
        assert AgreesTo(fds, q, bits[q], bits[q].size);
      }
    }
  }

  lemma CloseLow(s: State, x: Slot)
    requires LowInv(s) && x in s.fds && x.pid in s.bits && s.fds[x] in s.refs
    ensures Low(Close(s, x).fds, Close(s, x).bits)
  {
    var t := Close(s, x);
    forall q | q in s.bits
      ensures AgreesTo(t.fds, q, t.bits[q], t.bits[q].size)
    {
      assert AgreesTo(s.fds, q, s.bits[q], s.bits[q].size);
    }
  }

  lemma Dup2Low(s: State, x: Slot, fd: nat)
    requires LowInv(s) && Targets(s, x, fd)
    ensures Low(Dup2(s, x, fd).fds, Dup2(s, x, fd).bits) <==> fd < s.bits[x.pid].size
  {
    Dup2Effect(s, x, fd);
    SetLow(s.fds, s.bits, x.pid, fd, s.fds[x]);
  }

  lemma SetLow(fds: map<Slot, File>, bits: map<Pid, Bitset>, p: Pid, fd: nat, f: File)
    requires Low(fds, bits) && p in bits && fd < 8 * bits[p].size
    ensures Low(fds[Slot(p, fd) := f], bits[p := Bitset(bits[p].used + {fd}, bits[p].size)]) <==> fd < bits[p].size
  {
    var fds', bits' := fds[Slot(p, fd) := f], bits[p := Bitset(bits[p].used + {fd}, bits[p].size)];
    assert Slot(p, fd) in fds';
    if fd < bits[p].size {
      forall q | q in bits'
        ensures AgreesTo(fds', q, bits'[q], bits'[q].size)
      {
        assert AgreesTo(fds, q, bits[q], bits[q].size);
      }
    }
  }

  // Whatever the memory behind the copy holds, the child's bitmap is right below the size field.
  lemma ForkLow(s: State, parent: Pid, child: Pid, order: seq<nat>, beyond: set<nat>)
    requires LowInv(s) && Forkable(s, parent, child, order)
    ensures var t := Fork(s, parent, child, order, beyond); Low(t.fds, t.bits)
  {
    ForkCounts(s, parent, child, order, beyond);
    var t, b := Fork(s, parent, child, order, beyond), s.bits[parent];
    assert AgreesTo(s.fds, parent, b, b.size);
    CopiedFits(b.size);
    forall q | q in t.bits
      ensures AgreesTo(t.fds, q, t.bits[q], t.bits[q].size)
    {
      if q == child {
        ChildLow(s, t, parent, child, order, beyond);
      } else {
        assert AgreesTo(s.fds, q, s.bits[q], s.bits[q].size);
      }
    }
    ChildHeld(s, t, parent, child, order);
  }

  lemma ChildHeld(s: State, t: State, parent: Pid, child: Pid, order: seq<nat>)
    requires Low(s.fds, s.bits) && Inherited(s.fds, t.fds, parent, child, order) && parent in s.bits && child in t.bits
    requires t.bits == s.bits[child := t.bits[child]] && child !in s.bits && t.bits[child].size == s.bits[parent].size
    requires AgreesTo(t.fds, child, t.bits[child], s.bits[parent].size)
    ensures forall x | x in t.fds :: x.pid in t.bits && x.fd in t.bits[x.pid].used && x.fd < t.bits[x.pid].size
  {
    forall x | x in t.fds
      ensures x.pid in t.bits && x.fd in t.bits[x.pid].used && x.fd < t.bits[x.pid].size
    {
      if x.pid == child {
        assert x.fd in order && Slot(parent, x.fd) in s.fds;
      } else {
        assert x in s.fds;
      }
    }
  }

  lemma ChildLow(s: State, t: State, parent: Pid, child: Pid, order: seq<nat>, beyond: set<nat>)
    requires parent in s.bits && child !in s.bits && Lists(s.fds, parent, order)
    requires Inherited(s.fds, t.fds, parent, child, order)
    requires AgreesTo(s.fds, parent, s.bits[parent], s.bits[parent].size)
    ensures AgreesTo(t.fds, child, Copy(s.bits[parent], beyond), s.bits[parent].size)
  {
    var b := s.bits[parent];
    CopiedFits(b.size);
    forall k | 0 <= k < b.size
      ensures k in Copy(b, beyond).used <==> Slot(child, k) in t.fds
    {
      assert k in order <==> Slot(parent, k) in s.fds;
    }
  }

  // All descriptors stay below the size field, with right bits and counts, exactly for those calls.
  lemma StepLow(s: State, e: Event)
    requires LowInv(s) && Enabled(s, e)
    ensures Counted(Next(s, e).fds, Next(s, e).refs)
    ensures LowInv(Next(s, e)) <==> Below(s, e)
  {
    StepCounts(s, e);
    match e
    case OpenCall(p, fd, f) => TakeLow(s.fds, s.bits, p, fd, f);
    case CloseCall(x) => if x in s.fds { CloseLow(s, x); }
    case DupCall(x, fd) => if x in s.fds { TakeLow(s.fds, s.bits, x.pid, fd, s.fds[x]); }
    case Dup2Call(x, fd) => if x in s.fds && x.fd != fd { Dup2Low(s, x, fd); }
    case ForkCall(parent, child, order, beyond) => ForkLow(s, parent, child, order, beyond);
  }

  // There dup2 never closes a missing handle.
  lemma LowTargets(s: State, x: Slot, fd: nat)
    requires LowInv(s) && x in s.fds && fd < s.bits[x.pid].size
    ensures Targets(s, x, fd)
  {
    assert AgreesTo(s.fds, x.pid, s.bits[x.pid], s.bits[x.pid].size);
  }

  // ----- runs -----

  // Tasks with empty tables.
  ghost function Start(tasks: set<Pid>): State {
    State(map[], map p | p in tasks :: Bitset({}, 0), map[])
  }

  ghost predicate IsRun(run: seq<State>, events: seq<Event>, tasks: set<Pid>) {
    && |run| == |events| + 1
    && run[0] == Start(tasks)
    && forall i | 0 <= i < |events| :: Enabled(run[i], events[i]) && run[i + 1] == Next(run[i], events[i])
  }

  // Descriptor conservation over every run from tasks with empty tables whose numbers stay below the size field.
  lemma {:induction false} Conserved(run: seq<State>, events: seq<Event>, tasks: set<Pid>, n: nat)
    requires IsRun(run, events, tasks) && n <= |events| && forall i | 0 <= i < n :: Below(run[i], events[i])
    ensures LowInv(run[n])
  {
    if n > 0 {
      Conserved(run, events, tasks, n - 1);
      StepLow(run[n - 1], events[n - 1]);
    }
  }

  // Over every run of safe calls the bitmaps are right all through their data, whatever the numbers.
  lemma {:induction false} ConservedSafe(run: seq<State>, events: seq<Event>, tasks: set<Pid>, n: nat)
    requires IsRun(run, events, tasks) && n <= |events| && forall i | 0 <= i < n :: Safe(run[i], events[i])
    ensures Inv(run[n])
  {
    if n > 0 {
      ConservedSafe(run, events, tasks, n - 1);
      StepTracks(run[n - 1], events[n - 1]);
    }
  }

  // ----- numbers above the size field -----

  // Closing such a descriptor leaves its bit set, and no later dup2 onto it finds a handle to close.
  lemma HighBitsStick(s: State, x: Slot, y: Slot)
    requires Inv(s) && x in s.fds && x.fd > s.bits[x.pid].size
    requires y in s.fds && y.pid == x.pid && y != x
    ensures s.fds[x] in s.refs && x !in Close(s, x).fds && x.fd in Close(s, x).bits[x.pid].used
    ensures !Enabled(Close(s, x), Dup2Call(y, x.fd))
  {}

  // Any number above the size field, dup2ed onto and closed, is lost in this way.
  lemma HighNumbersAreLost(s: State, x: Slot, fd: nat)
    requires Inv(s) && x in s.fds && x.pid in s.bits
    requires s.bits[x.pid].size < fd < 8 * s.bits[x.pid].size && fd !in s.bits[x.pid].used
    ensures Enabled(s, Dup2Call(x, fd))
    ensures var t := Next(s, Dup2Call(x, fd)); var y := Slot(x.pid, fd);
      && Enabled(t, CloseCall(y))
      && var u := Next(t, CloseCall(y));
      && x in u.fds && y !in u.fds && x.pid in u.bits && fd in u.bits[x.pid].used && !Enabled(u, Dup2Call(x, fd))
  {
    assert x.fd != fd;
    StepTracks(s, Dup2Call(x, fd));
    Dup2Effect(s, x, fd);
    HighBitsStick(Next(s, Dup2Call(x, fd)), Slot(x.pid, fd), x);
  }

  lemma ThreeCalls(tasks: set<Pid>, a: Event, b: Event, c: Event) returns (run: seq<State>)
    requires Enabled(Start(tasks), a) && Enabled(Next(Start(tasks), a), b)
    requires Enabled(Next(Next(Start(tasks), a), b), c)
    ensures IsRun(run, [a, b, c], tasks) && run[3] == Next(Next(Next(Start(tasks), a), b), c)
  {
    var s1 := Next(Start(tasks), a);
    var s2 := Next(s1, b);
    run := [Start(tasks), s1, s2, Next(s2, c)];
  }

  lemma FirstOpen(f: File, s0: State)
    requires s0.fds == map[] && s0.refs == map[] && 0 in s0.bits && s0.bits[0] == Bitset({}, 0) && Inv(s0)
    ensures Enabled(s0, OpenCall(0, 0, f))
    ensures var s := Next(s0, OpenCall(0, 0, f));
      Inv(s) && s.fds == map[Slot(0, 0) := f] && s.bits.Keys == s0.bits.Keys && s.bits[0] == Bitset({0}, 512)
  {
    StepTracks(s0, OpenCall(0, 0, f));
  }

  // The shortest such run: open, dup2 onto 600, close 600. A second dup2 onto 600 would close a missing handle.
  lemma StaleBit(f: File) returns (run: seq<State>)
    ensures IsRun(run, [OpenCall(0, 0, f), Dup2Call(Slot(0, 0), 600), CloseCall(Slot(0, 600))], {0})
    ensures Slot(0, 600) !in run[3].fds && 0 in run[3].bits && 600 in run[3].bits[0].used
    ensures !Enabled(run[3], Dup2Call(Slot(0, 0), 600))
  {
    FirstOpen(f, Start({0}));
    HighNumbersAreLost(Next(Start({0}), OpenCall(0, 0, f)), Slot(0, 0), 600);
    run := ThreeCalls({0}, OpenCall(0, 0, f), Dup2Call(Slot(0, 0), 600), CloseCall(Slot(0, 600)));
  }

  // A fork loses the bit of every descriptor behind the bytes copied, if the memory there is clear.
  lemma ForkLosesHigh(s: State, parent: Pid, child: Pid, order: seq<nat>, fd: nat)
    requires Forkable(s, parent, child, order) && Slot(parent, fd) in s.fds && CopiedBits(s.bits[parent].size) <= fd
    ensures var t := Next(s, ForkCall(parent, child, order, {}));
      Slot(child, fd) in t.fds && child in t.bits && fd !in t.bits[child].used
  {
    ForkCounts(s, parent, child, order, {});
    assert fd in order;
  }

  // One descriptor, then one more at 512.
  lemma DupHigh(f: File, s: State)
    requires Inv(s) && s.fds == map[Slot(0, 0) := f] && 0 in s.bits && s.bits[0] == Bitset({0}, 512) && 1 !in s.bits
    ensures Enabled(s, Dup2Call(Slot(0, 0), 512))
    ensures var t := Next(s, Dup2Call(Slot(0, 0), 512));
      Forkable(t, 0, 1, [0, 512]) && Slot(0, 512) in t.fds && t.bits[0].size == 512
  {
    var e := Dup2Call(Slot(0, 0), 512);
    assert Slot(0, 0) in s.fds;
    StepTracks(s, e);
    Dup2Effect(s, Slot(0, 0), 512);
    ListsTwo(Next(s, e).fds, f);
  }

  lemma ListsTwo(fds: map<Slot, File>, f: File)
    requires fds == map[Slot(0, 0) := f][Slot(0, 512) := f]
    ensures Lists(fds, 0, [0, 512])
  {}

  // The shortest such run: open, dup2 onto 512, fork. The child holds 512, and its bit is clear.
  lemma LostBit(f: File) returns (run: seq<State>)
    ensures IsRun(run, [OpenCall(0, 0, f), Dup2Call(Slot(0, 0), 512), ForkCall(0, 1, [0, 512], {})], {0})
    ensures Slot(1, 512) in run[3].fds && 1 in run[3].bits && 512 !in run[3].bits[1].used
  {
    FirstOpen(f, Start({0}));
    DupHigh(f, Next(Start({0}), OpenCall(0, 0, f)));
    var s := Next(Next(Start({0}), OpenCall(0, 0, f)), Dup2Call(Slot(0, 0), 512));
    ForkLosesHigh(s, 0, 1, [0, 512], 512);
    run := ThreeCalls({0}, OpenCall(0, 0, f), Dup2Call(Slot(0, 0), 512), ForkCall(0, 1, [0, 512], {}));
  }
}
