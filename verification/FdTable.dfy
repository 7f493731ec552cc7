// The growing bitmap of kernel/lib/bitmap.c, and the descriptor calls as in-place updates of the kernel's tables.
module FdTables {
  import opened Arith
  import opened Descriptors

  ghost predicate LowestClear(bits: seq<bool>, i: nat) {
    i < |bits| && !bits[i] && forall k | 0 <= k < i :: bits[k]
  }

  ghost predicate AllSet(bits: seq<bool>) { forall k | 0 <= k < |bits| :: bits[k] }

  // The numbers whose bit is set.
  ghost function Members(bits: seq<bool>): set<nat> {
    set k: nat | k < |bits| && bits[k]
  }

  lemma LowestIsLowest(bits: seq<bool>, r: nat)
    requires LowestClear(bits, r)
    ensures Lowest(Members(bits), r) && Members(bits[r := true]) == Members(bits) + {r}
  {
    assert forall k: nat | k < |bits| && bits[k] :: k in Members(bits);
  }

  lemma GrownIsLowest(bits: seq<bool>, n: nat)
    requires AllSet(bits) && n > 0
    ensures Lowest(Members(bits), |bits|)
    ensures Members(bits + seq(n, i => i == 0)) == Members(bits) + {|bits|}
  {
    assert forall k: nat | k < |bits| :: bits[k] && k in Members(bits);
    var grown := bits + seq(n, i => i == 0);
    assert forall k: nat | k < |grown| :: grown[k] <==> k <= |bits|;
  }

  class Bitmap {
    var bits: seq<bool>   // data, as BIT_TEST sees it
    var size: nat         // in bytes when allocating, but compared with bit numbers when freeing
    const resizable: bool

    constructor (resizable: bool)
      ensures this.resizable == resizable && size == 0 && bits == [] && Valid()
    {
      this.resizable, size, bits := resizable, 0, [];
    }

    ghost predicate Valid()
      reads this
    {
      |bits| == 8 * size
    }

    ghost function Abstract(): Bitset
      reads this
    {
      Bitset(Members(bits), size)
    }

    // bitmap_alloc: the lowest clear bit, after growing by 0x200 bytes if every bit is set.
    method Alloc() returns (r: int)
      requires Valid()
      modifies this
      ensures Valid()
      ensures r == -1 <==> !resizable && old(AllSet(bits))
      ensures r == -1 ==> unchanged(this)
      ensures r != -1 && !old(AllSet(bits)) ==>
        0 <= r < |bits| && LowestClear(old(bits), r) && bits == old(bits)[r := true] && size == old(size)
      ensures r != -1 && old(AllSet(bits)) ==>
        r == |old(bits)| && size == old(size) + 0x200 && bits == old(bits) + seq(0x1000, i => i == 0)
      ensures r != -1 ==> r >= 0 && Allocated(old(Abstract()), r) && Abstract() == Take(old(Abstract()), r)
      decreases AllSet(bits)
    {
      var i := 0;
      while i < size * 8
        invariant i <= |bits| && unchanged(this)
        invariant forall k | 0 <= k < i :: bits[k]
      {
        if !bits[i] {
          LowestIsLowest(bits, i);
          bits := bits[i := true];
          return i;
        }
        i := i + 1;
      }
      if resizable {
        ghost var before := bits;
        GrownIsLowest(before, 0x1000);
        size := size + 0x200;
        bits := bits + seq(0x1000, _ => false);
        assert !bits[|before|];
        r := Alloc();
        assert r == |before|;
        return;
      }
      return -1;
    }

    // bitmap_free: a bit number above `size` is ignored, although 8 * size bits are in use.
    method Free(index: nat)
      requires Valid() && (index <= size ==> index < |bits|)
      modifies this`bits
      ensures Valid() && bits == if index > size then old(bits) else old(bits)[index := false]
      ensures Abstract() == Release(old(Abstract()), index)
    {
      if index > size {
        return;
      }
      bits := bits[index := false];
    }

    // BIT_SET
    method Set(index: nat)
      requires Valid() && index < |bits|
      modifies this`bits
      ensures Valid() && Abstract() == Bitset(old(Abstract()).used + {index}, size)
    {
      bits := bits[index := true];
    }

    // bitmap_dup: DIV_ROUNDUP(size, 8) bytes are copied. `beyond` is what the memory at and behind the copy holds.
    method Dup(beyond: seq<bool>) returns (dest: Bitmap)
      requires Valid() && |beyond| == |bits|
      ensures fresh(dest) && dest.Valid() && dest.size == size && dest.resizable == resizable
      ensures CopiedBits(size) <= |bits| && dest.bits == bits[..CopiedBits(size)] + beyond[CopiedBits(size)..]
      ensures dest.bits == bits <==> beyond[CopiedBits(size)..] == bits[CopiedBits(size)..]
      ensures dest.Abstract() == Copy(Abstract(), Members(beyond))
    {
      dest := new Bitmap(resizable);
      dest.size := size;
      var copied := 8 * DivRoundup(size, 8);
      CopiedFits(size);
      dest.bits := bits[..copied] + beyond[copied..];
      SplitsAgree(bits, dest.bits, beyond, copied);
      assert Members(dest.bits) == Copy(Abstract(), Members(beyond)).used;
    }
  }

  lemma SplitsAgree(a: seq<bool>, b: seq<bool>, c: seq<bool>, n: nat)
    requires n <= |a| == |c| && b == a[..n] + c[n..]
    ensures b == a <==> c[n..] == a[n..]
  {
    assert a == a[..n] + a[n..] && b[n..] == c[n..];
  }

  // The descriptor tables and bitmaps of all tasks and the handles they share.
  class FdSpace {
    var fds: map<Slot, File>
    var maps: map<Pid, Bitmap>
    var refs: map<File, int>

    // Every task has a bitmap of its own.
    ghost predicate Valid()
      reads this`maps, maps.Values
    {
      && (forall p | p in maps :: maps[p].Valid() && maps[p].resizable)
      && (forall p, q | p in maps && q in maps && p != q :: maps[p] != maps[q])
    }

    ghost function Bitsets(): map<Pid, Bitset>
      reads this`maps, maps.Values
    {
      map p | p in maps :: maps[p].Abstract()
    }

    ghost function Abstract(): State
      reads this, maps.Values
    {
      State(fds, Bitsets(), refs)
    }

    method FileGet(f: File)
      requires f in refs
      modifies this`refs
      ensures refs == Get(old(refs), f)
    {
      refs := refs[f := refs[f] + 1];
    }

    method FilePut(f: File)
      requires f in refs
      modifies this`refs
      ensures refs == Put(old(refs), f)
    {
      refs := refs[f := refs[f] - 1];
      if refs[f] == 0 {
        refs := refs - {f};
      }
    }

    // bitmap_alloc on a task's bitmap.
    method TakeNumber(p: Pid) returns (fd: nat)
      requires Valid() && p in maps
      modifies maps[p]
      ensures Valid() && Allocated(old(Bitsets())[p], fd)
      ensures Bitsets() == old(Bitsets())[p := Take(old(Bitsets())[p], fd)]
    {
      var r := maps[p].Alloc();
      fd := r;
    }

    // A new number for a handle, as fd_openat and fd_dup do it.
    method Attach(p: Pid, f: File) returns (fd: nat)
      requires Valid() && p in maps
      modifies this`fds, maps[p]
      ensures Valid() && Allocated(old(Bitsets())[p], fd) && fds == old(fds)[Slot(p, fd) := f]
      ensures Bitsets() == old(Bitsets())[p := Take(old(Bitsets())[p], fd)]
    {
      fd := TakeNumber(p);
      fds := fds[Slot(p, fd) := f];
    }

    // The descriptor part of fd_openat; `f` is the new file handle.
    method FdOpen(p: Pid, f: File) returns (fd: nat)
      requires Valid() && Sane(Abstract()) && p in maps && f !in refs
      modifies this`fds, this`refs, maps[p]
      ensures Valid() && Enabled(old(Abstract()), OpenCall(p, fd, f))
      ensures Abstract() == Next(old(Abstract()), OpenCall(p, fd, f))
      ensures fds == old(fds)[Slot(p, fd) := f] && refs == old(refs)[f := 1]
    {
      fd := Attach(p, f);
      refs := refs[f := 1];
    }

    // fd_close_unlocked
    method CloseUnlocked(x: Slot)
      requires Valid() && x in fds && x.pid in maps && fds[x] in refs
      requires x.fd <= maps[x.pid].size ==> x.fd < |maps[x.pid].bits|
      modifies this`fds, this`refs, maps[x.pid]
      ensures Valid() && Abstract() == Close(old(Abstract()), x)
    {
      FilePut(fds[x]);
      fds := fds - {x};
      maps[x.pid].Free(x.fd);
      assert Bitsets() == old(Bitsets())[x.pid := Release(old(Bitsets())[x.pid], x.fd)];
    }

    // fd_close
    method FdClose(x: Slot) returns (ok: bool)
      requires Valid() && Sane(Abstract()) && Backed(fds, Bitsets()) && x.pid in maps
      modifies this`fds, this`refs, maps[x.pid]
      ensures Valid() && ok == (x in old(fds))
      ensures Abstract() == Next(old(Abstract()), CloseCall(x))
      ensures fds == old(fds) - {x}
      ensures ok ==>
        var f := old(fds)[x];
        f in old(refs) && refs == if old(refs)[f] == 1 then old(refs) - {f} else old(refs)[f := old(refs)[f] - 1]
      ensures !ok ==> refs == old(refs)
    {
      if x !in fds {
        return false;
      }
      assert x.fd in Bitsets()[x.pid].used;
      CloseUnlocked(x);
      return true;
    }

    // The part of fd_dup that changes the table.
    method Duplicate(x: Slot) returns (fd: nat)
      requires Valid() && x in fds && x.pid in maps && fds[x] in refs
      modifies this`fds, this`refs, maps[x.pid]
      ensures Valid() && Allocated(old(Bitsets())[x.pid], fd) && Abstract() == Dup(old(Abstract()), x, fd)
    {
      FileGet(fds[x]);
      fd := Attach(x.pid, fds[x]);
    }

    // fd_dup
    method FdDup(x: Slot) returns (ok: bool, fd: nat)
      requires Valid() && Sane(Abstract()) && x.pid in maps
      modifies this`fds, this`refs, maps[x.pid]
      ensures Valid() && ok == (x in old(fds))
      ensures !ok ==> unchanged(this) && unchanged(maps[x.pid])
      ensures ok ==> Enabled(old(Abstract()), DupCall(x, fd)) && Abstract() == Next(old(Abstract()), DupCall(x, fd))
      ensures ok ==>
        var f := old(fds)[x];
        f in old(refs) && fds == old(fds)[Slot(x.pid, fd) := f] && refs == old(refs)[f := old(refs)[f] + 1]
    {
      if x !in fds {
        return false, 0;
      }
      fd := Duplicate(x);
      ok := true;
    }

    // fd_dup2. The number must lie in the data of the bitmap, and if its bit is set there must be a handle to close.
    method FdDup2(x: Slot, newfd: nat) returns (ok: bool)
      requires Valid() && Enabled(Abstract(), Dup2Call(x, newfd))
      modifies this`fds, this`refs, maps[x.pid]
      ensures Valid() && ok == (x in old(fds))
      ensures Abstract() == Next(old(Abstract()), Dup2Call(x, newfd))
      ensures ok ==> fds == old(fds)[Slot(x.pid, newfd) := old(fds)[x]]
      ensures !ok || x.fd == newfd ==> fds == old(fds) && refs == old(refs)
    {
      Dup2Names(Abstract(), x, newfd);
      if x !in fds {
        return false;
      }
      if x.fd == newfd {
        return true;
      }
      Rename(x, newfd);
      return true;
    }

    // The part of fd_dup2 that changes the table.
    method Rename(x: Slot, newfd: nat)
      requires Valid() && x in fds && x.pid in maps && fds[x] in refs && newfd < 8 * maps[x.pid].size
      requires newfd in Bitsets()[x.pid].used ==> Slot(x.pid, newfd) in fds && fds[Slot(x.pid, newfd)] in refs
      modifies this`fds, this`refs, maps[x.pid]
      ensures Valid() && Abstract() == Dup2(old(Abstract()), x, newfd)
    {
      ghost var s := Abstract();
      var p, f := x.pid, fds[x];
      FileGet(f);
      ghost var s1 := Abstract();
      assert s1 == s.(refs := Get(s.refs, f));
      CloseTarget(p, newfd);
      ghost var s2 := Abstract();
      SetBit(p, newfd);
      ghost var b := Bitsets();
      fds := fds[Slot(p, newfd) := f];
      assert Bitsets() == b;
      assert Abstract() == State(s2.fds[Slot(p, newfd) := f], b, s2.refs);
    }

    method CloseTarget(p: Pid, fd: nat)
      requires Valid() && p in maps && fd < 8 * maps[p].size
      requires fd in Bitsets()[p].used ==> Slot(p, fd) in fds && fds[Slot(p, fd)] in refs
      modifies this`fds, this`refs, maps[p]
      ensures Valid() && maps[p].size == old(maps[p].size)
      ensures Abstract() ==
        if fd in old(Bitsets())[p].used then Close(old(Abstract()), Slot(p, fd)) else old(Abstract())
    {
      assert fd in Bitsets()[p].used <==> maps[p].bits[fd];
      if maps[p].bits[fd] {
        CloseUnlocked(Slot(p, fd));
      }
    }

    method SetBit(p: Pid, fd: nat)
      requires Valid() && p in maps && fd < 8 * maps[p].size
      modifies maps[p]
      ensures Valid()
      ensures Bitsets() == old(Bitsets())[p := Bitset(old(Bitsets())[p].used + {fd}, old(Bitsets())[p].size)]
    {
      maps[p].Set(fd);
    }

    // The descriptor loop of syscall_fork; `order` is the parent's table slot by slot.
    method InheritLoop(parent: Pid, child: Pid, order: seq<nat>)
      requires Forkable(Abstract(), parent, child, order)
      modifies this`fds, this`refs
      ensures Abstract() == InheritAll(old(Abstract()), parent, child, order)
    {
      ghost var s := Abstract();
      for i := 0 to |order|
        invariant Abstract() == InheritAll(s, parent, child, order[..i])
      {
        InheritNext(s, parent, child, order, i);
        var x := Slot(parent, order[i]);
        FileGet(fds[x]);
        fds := fds[Slot(child, order[i]) := fds[x]];
      }
      assert order[..|order|] == order;
    }

    // bitmap_dup into a new task.
    method CopyBitmap(parent: Pid, child: Pid, beyond: seq<bool>)
      requires Valid() && parent in maps && child !in maps && |beyond| == |maps[parent].bits|
      modifies this`maps
      ensures Valid() && Bitsets() == old(Bitsets())[child := Copy(old(Bitsets())[parent], Members(beyond))]
    {
      var copy := maps[parent].Dup(beyond);
      maps := maps[child := copy];
    }

    // The descriptors and the bitmap of a forked task. `beyond` is what the memory at and behind the child's copy of
    // the bitmap holds.
    method ForkDescriptors(parent: Pid, child: Pid, order: seq<nat>, beyond: seq<bool>)
      requires Valid() && Forkable(Abstract(), parent, child, order) && |beyond| == |maps[parent].bits|
      modifies this
      ensures Valid()
      ensures Abstract() == Next(old(Abstract()), ForkCall(parent, child, order, Members(beyond)))
      ensures Inherited(old(fds), fds, parent, child, order)
    {
      ForkCounts(Abstract(), parent, child, order, Members(beyond));
      ForkTask(parent, child, order, beyond);
    }

    // The loop, then the bitmap.
    method ForkTask(parent: Pid, child: Pid, order: seq<nat>, beyond: seq<bool>)
      requires Valid() && Forkable(Abstract(), parent, child, order) && |beyond| == |maps[parent].bits|
      modifies this
      ensures Valid() && Abstract() == Fork(old(Abstract()), parent, child, order, Members(beyond))
    {
      ghost var s := Abstract();
      InheritLoop(parent, child, order);
      ghost var t := Abstract();
      assert t.bits == s.bits;
      CopyBitmap(parent, child, beyond);
      assert Abstract() == State(t.fds, t.bits[child := Copy(s.bits[parent], Members(beyond))], t.refs);
    }
  }
}
