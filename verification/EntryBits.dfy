// The flag bits of kernel/mm/vmm.h and the mask arithmetic that vmm.c does on page-table entries.
module EntryBits {
  import opened CopyOnWrite

  const P: bv64 := 0x1
  const RW: bv64 := 0x2
  const US: bv64 := 0x4
  const COW: bv64 := 0x200
  const SHARE: bv64 := 0x800
  const NX: bv64 := 0x8000_0000_0000_0000

  const PROT_WRITE: bv64 := 0x2
  const PROT_EXEC: bv64 := 0x4
  const PROT_USER: bv64 := 0x8

  function DecodeFlags(e: bv64): Flags {
    Flags(e & 0x1 != 0, e & 0x2 != 0, e & 0x4 != 0, e & 0x8000_0000_0000_0000 != 0, e & 0x200 != 0)
  }

  // The frame is `entry & ~(0xfff) & 0xffffffffff`, as the fault handler extracts it.
  function Decode(e: bv64): Pte {
    Pte(Frame(e & 0xff_ffff_f000), DecodeFlags(e))
  }

  // A frame address the entry format can hold.
  predicate FrameOk(f: bv64) { f & 0xff_ffff_f000 == f }

  // Flags of a private page: no address bits, not a shared file page.
  predicate FlagsOk(flags: bv64) { flags & 0x7fff_ffff_ffff_f000 == 0 && flags & 0x800 == 0 }

  // Present, and no 2 MiB page.
  predicate Small(e: bv64) { e & 0x81 == 0x1 }

  // The fork loop's `&= ~RW; |= COW` strips write permission, marks the page and moves nothing else.
  lemma ProtectBits(e: bv64)
    ensures Decode((e & !RW) | COW) == Decode(e).(flags := Protect(Decode(e).flags))
    ensures ((e & !RW) | COW) & SHARE == e & SHARE
    ensures FlagsOk(e) ==> FlagsOk((e & !RW) | COW)
    ensures Small(e) ==> Small((e & !RW) | COW)
  {}

  // map_page's `paddr | flags` loses neither part.
  lemma MapBits(f: bv64, flags: bv64)
    requires FrameOk(f) && FlagsOk(flags)
    ensures Decode(f | flags) == Pte(Frame(f), DecodeFlags(flags))
    ensures (f | flags) & SHARE == 0 && (Small(flags) ==> Small(f | flags))
  {}

  // The handler's `frame | ((entry & 0x1ff) | RW)` keeps presence and user access, grants writing and
  // drops the copy-on-write mark; it also drops the no-execute bit.
  lemma OwnBits(e: bv64, f: bv64)
    requires FrameOk(f)
    ensures Decode(f | ((e & 0x1ff) | RW)) ==
            Pte(Frame(f), Decode(e).flags.(writable := true, noExec := false, cow := false))
    ensures (f | ((e & 0x1ff) | RW)) & SHARE == 0 && (Small(e) ==> Small(f | ((e & 0x1ff) | RW)))
  {}

  // The handler's entry as the processor reads it: the low nine bits but RW are those of before, RW is set, and the
  // no-execute bit stays exactly if the page was not marked.
  predicate Resolved(e: bv64, e': bv64) {
    && e' & 0x1fd == e & 0x1fd && e' & 0x202 == 0x2
    && (e' & 0x8000_0000_0000_0000 != 0 <==> e & 0x8000_0000_0000_0000 != 0 && e & 0x200 == 0)
  }

  lemma OwnResolved(e: bv64, f: bv64)
    requires FrameOk(f) && e & 0x200 != 0
    ensures Resolved(e, f | ((e & 0x1ff) | RW))
  {}

  lemma WriteResolved(e: bv64)
    requires e & 0x200 == 0
    ensures Resolved(e, e | RW)
  {}

  // The entry and the flags of a shared page: RW is clear, the mark is set, every other bit is as before.
  predicate Marked(e: bv64, e': bv64) {
    e' & 0xffff_ffff_ffff_fdfd == e & 0xffff_ffff_ffff_fdfd && e' & 0x202 == 0x200
  }

  lemma ProtectMarks(e: bv64)
    ensures Marked(e, (e & !RW) | COW)
  {}

  // The permissions of a fresh page are those of its region.
  predicate Permits(e: bv64, prot: bv64) {
    && (e & 0x2 != 0 <==> prot & 0x2 != 0) && (e & 0x4 != 0 <==> prot & 0x8 != 0)
    && (e & 0x8000_0000_0000_0000 == 0 <==> prot & 0x4 != 0) && e & 0x201 == 0x1
  }

  lemma MapPermits(f: bv64, flags: bv64, prot: bv64)
    requires FrameOk(f) && Permits(flags, prot)
    ensures Permits(f | flags, prot)
  {}

  lemma WriteBits(e: bv64)
    ensures Decode(e | RW) == Decode(e).(flags := Decode(e).flags.(writable := true))
    ensures (e | RW) & SHARE == e & SHARE && (Small(e) ==> Small(e | RW))
  {}
}
