// sched_arg_placement of kernel/sched/sched.c: the initial stack of a new program, and its decoding by the
// rules of sections 3.4.1 and 3.4.3 of the System V AMD64 psABI.
module ExecStack {
  import opened Common

  type Byte = b: nat | b < 256

  // ----- little-endian words -----

  function Pow256(n: nat): nat { if n == 0 then 1 else 256 * Pow256(n - 1) }

  function Bytes(w: nat, n: nat): (r: seq<Byte>)
    ensures |r| == n
  {
    if n == 0 then [] else [w % 256] + Bytes(w / 256, n - 1)
  }

  function Value(bs: seq<Byte>): nat {
    if bs == [] then 0 else bs[0] + 256 * Value(bs[1..])
  }

  lemma {:induction false} WordRoundTrip(w: nat, n: nat)
    requires w < Pow256(n)
    ensures Value(Bytes(w, n)) == w
  {
    if n > 0 {
      WordRoundTrip(w / 256, n - 1);
      assert Bytes(w, n)[1..] == Bytes(w / 256, n - 1);
    }
  }

  lemma Pow8()
    ensures Pow256(8) == 0x1_0000_0000_0000_0000
  {
    assert Pow256(1) == 256 && Pow256(2) == 0x1_0000 && Pow256(3) == 0x100_0000 && Pow256(4) == 0x1_0000_0000;
    assert Pow256(5) == 0x100_0000_0000 && Pow256(6) == 0x1_0000_0000_0000 && Pow256(7) == 0x100_0000_0000_0000;
  }

  predicate Word(w: nat) { w < 0x1_0000_0000_0000_0000 }

  // ----- memory -----

  // The word at address a.
  function Peek(mem: seq<Byte>, a: nat): nat
    requires a + 8 <= |mem|
  {
    Value(mem[a..a + 8])
  }

  // Word i of a table at address `at`.
  function Entry(mem: seq<Byte>, at: nat, i: nat): nat
    requires at + 8 * i + 8 <= |mem|
  {
    Peek(mem, at + 8 * i)
  }

  function Store(mem: seq<Byte>, a: nat, bs: seq<Byte>): (r: seq<Byte>)
    requires a + |bs| <= |mem|
    ensures |r| == |mem|
  {
    mem[..a] + bs + mem[a + |bs|..]
  }

  // Outside [lo, hi) nothing differs.
  predicate Same(m: seq<Byte>, n: seq<Byte>, lo: nat, hi: nat) {
    |m| == |n| && forall i | 0 <= i < |m| && !(lo <= i < hi) :: m[i] == n[i]
  }

  lemma SlicesAgree(m: seq<Byte>, n: seq<Byte>, lo: nat, hi: nat, a: nat, b: nat)
    requires Same(m, n, lo, hi) && a <= b <= |m| && (b <= lo || hi <= a)
    ensures m[a..b] == n[a..b]
  {}

  lemma StoreSame(mem: seq<Byte>, a: nat, bs: seq<Byte>)
    requires a + |bs| <= |mem|
    ensures Same(mem, Store(mem, a, bs), a, a + |bs|)
    ensures Store(mem, a, bs)[a..a + |bs|] == bs
  {}

  lemma PokePeek(mem: seq<Byte>, a: nat, w: nat)
    requires a + 8 <= |mem| && Word(w)
    ensures Peek(Store(mem, a, Bytes(w, 8)), a) == w
  {
    Pow8();
    WordRoundTrip(w, 8);
    StoreSame(mem, a, Bytes(w, 8));
  }

  lemma PeekSame(m: seq<Byte>, n: seq<Byte>, lo: nat, hi: nat, a: nat)
    requires Same(m, n, lo, hi) && a + 8 <= |m| && (a + 8 <= lo || hi <= a)
    ensures Peek(n, a) == Peek(m, a)
  {
    SlicesAgree(m, n, lo, hi, a, a + 8);
  }

  // ----- strings -----

  predicate CString(s: seq<Byte>) { forall i | 0 <= i < |s| :: s[i] != 0 }

  // What a reader finds from address a up to the first zero byte.
  function ReadString(mem: seq<Byte>, a: nat): seq<Byte>
    decreases |mem| - a
  {
    if a >= |mem| || mem[a] == 0 then [] else [mem[a]] + ReadString(mem, a + 1)
  }

  lemma {:induction false} ReadBack(mem: seq<Byte>, a: nat, s: seq<Byte>)
    requires CString(s) && a + |s| + 1 <= |mem| && mem[a..a + |s| + 1] == s + [0]
    ensures ReadString(mem, a) == s
    decreases |s|
  {
    var image := mem[a..a + |s| + 1];
    assert mem[a] == image[0];
    if s != [] {
      assert mem[a + 1..a + 1 + |s[1..]| + 1] == image[1..] == s[1..] + [0];
      ReadBack(mem, a + 1, s[1..]);
    }
  }

  // Bytes taken by the first n strings of a list.
  function Size(list: seq<seq<Byte>>, n: nat): nat
    requires n <= |list|
  {
    if n == 0 then 0 else Size(list, n - 1) + |list[n - 1]| + 1
  }

  // String i lies just below the strings before it, counted down from `top`.
  predicate StringsAt(mem: seq<Byte>, list: seq<seq<Byte>>, top: nat, n: nat)
    requires n <= |list|
  {
    && Size(list, n) <= top <= |mem|
    && forall i | 0 <= i < n :: PlacedAt(mem, list, top, i)
  }

  predicate PlacedAt(mem: seq<Byte>, list: seq<seq<Byte>>, top: nat, i: nat)
    requires i < |list|
  {
    StringAt(mem, list[i], top - Size(list, i + 1))
  }

  predicate StringAt(mem: seq<Byte>, s: seq<Byte>, a: int) {
    0 <= a && a + |s| + 1 <= |mem| && mem[a..a + |s| + 1] == s + [0]
  }

  lemma {:induction false} SizeMonotone(list: seq<seq<Byte>>, i: nat, n: nat)
    requires i <= n <= |list|
    ensures Size(list, i) + (n - i) <= Size(list, n)
  {
    if i < n { SizeMonotone(list, i, n - 1); }
  }

  // Strings survive any change below them.
  lemma StringsSurvive(m: seq<Byte>, n: seq<Byte>, lo: nat, hi: nat, list: seq<seq<Byte>>, top: nat, k: nat)
    requires k <= |list| && StringsAt(m, list, top, k) && Same(m, n, lo, hi) && hi <= top - Size(list, k)
    ensures StringsAt(n, list, top, k)
  {
    forall i | 0 <= i < k
      ensures PlacedAt(n, list, top, i)
    {
      SizeMonotone(list, i + 1, k);
      assert PlacedAt(m, list, top, i);
      var a := top - Size(list, i + 1);
      SlicesAgree(m, n, lo, hi, a, a + |list[i]| + 1);
    }
  }

  // Pointer i of a table at `at` names string i of a list placed below `top`.
  ghost predicate PointersAt(mem: seq<Byte>, at: nat, list: seq<seq<Byte>>, top: int, n: nat)
    requires n <= |list|
  {
    at + 8 * n <= |mem| && forall i | 0 <= i < n :: Entry(mem, at, i) == top - Size(list, i + 1)
  }

  datatype Aux = Aux(phnum: nat, phent: nat, phdr: nat, entry: nat)

  // The auxiliary vector as written: type and value alternating, closed by AT_NULL.
  function AuxWords(aux: Aux): seq<nat> {
    [5, aux.phnum, 4, aux.phent, 3, aux.phdr, 9, aux.entry, 0, 0]
  }

  // ----- the tables -----

  ghost predicate AuxAt(mem: seq<Byte>, a: nat, aux: Aux) {
    a + 80 <= |mem| && forall i | 0 <= i < 10 :: Entry(mem, a, i) == AuxWords(aux)[i]
  }

  // A table of pointers to the placed strings of a list, closed by a null word.
  ghost predicate TableAt(mem: seq<Byte>, at: nat, list: seq<seq<Byte>>, top: int) {
    at + 8 * |list| + 8 <= |mem| && PointersAt(mem, at, list, top, |list|) && Entry(mem, at, |list|) == 0
  }

  // Where the tables start above the stack pointer.
  function ArgStart(sp: nat): nat { sp + 8 }
  function EnvAfter(arg: nat, argc: nat): nat { arg + 8 * argc + 8 }

  // The three tables and the argument count, with the addresses they start at.
  ghost predicate TablesAt(mem: seq<Byte>, sp: nat, env: nat, auxAt: nat,
                           argv: seq<seq<Byte>>, envp: seq<seq<Byte>>, aux: Aux, top: nat) {
    && env == EnvAfter(ArgStart(sp), |argv|) && auxAt == EnvAfter(env, |envp|)
    && AuxAt(mem, auxAt, aux) && TableAt(mem, env, envp, top)
    && TableAt(mem, ArgStart(sp), argv, top - Size(envp, |envp|)) && Peek(mem, sp) == |argv|
  }

  // The whole image: the tables, and above them the strings they point to.
  ghost predicate Laid(mem: seq<Byte>, sp: nat, env: nat, auxAt: nat,
                       argv: seq<seq<Byte>>, envp: seq<seq<Byte>>, aux: Aux, top: nat) {
    && Size(envp, |envp|) + Size(argv, |argv|) + auxAt + 80 <= top <= |mem|
    && TablesAt(mem, sp, env, auxAt, argv, envp, aux, top)
    && StringsAt(mem, envp, top, |envp|) && StringsAt(mem, argv, top - Size(envp, |envp|), |argv|)
  }

  // Room taken at most: strings, alignment, padding, and the tables.
  function Needed(argv: seq<seq<Byte>>, envp: seq<seq<Byte>>): nat {
    Size(envp, |envp|) + Size(argv, |argv|) + 15 + 8 + 8 * (|argv| + |envp| + 13)
  }

  lemma EntrySame(m: seq<Byte>, n: seq<Byte>, lo: nat, hi: nat, at: nat, i: nat)
    requires Same(m, n, lo, hi) && at + 8 * i + 8 <= |m| && (at + 8 * i + 8 <= lo || hi <= at + 8 * i)
    ensures Entry(n, at, i) == Entry(m, at, i)
  {
    PeekSame(m, n, lo, hi, at + 8 * i);
  }

  lemma TableSurvives(m: seq<Byte>, n: seq<Byte>, lo: nat, hi: nat, at: nat, list: seq<seq<Byte>>, top: int)
    requires Same(m, n, lo, hi) && hi <= at && TableAt(m, at, list, top)
    ensures TableAt(n, at, list, top)
  {
    forall i | 0 <= i < |list|
      ensures Entry(n, at, i) == top - Size(list, i + 1)
    {
      EntrySame(m, n, lo, hi, at, i);
      assert Entry(m, at, i) == top - Size(list, i + 1);
    }
    EntrySame(m, n, lo, hi, at, |list|);
  }

  lemma AuxSurvives(m: seq<Byte>, n: seq<Byte>, lo: nat, hi: nat, a: nat, aux: Aux)
    requires Same(m, n, lo, hi) && hi <= a && AuxAt(m, a, aux)
    ensures AuxAt(n, a, aux)
  {
    forall i | 0 <= i < 10
      ensures Entry(n, a, i) == AuxWords(aux)[i]
    {
      EntrySame(m, n, lo, hi, a, i);
    }
  }

  // Where the tables end: below the strings, 16-aligned, with a padding word for an even number of pointers.
  function TableEnd(strings: nat, n: nat): int {
    strings - strings % 16 - if (n + 1) % 2 == 1 then 8 else 0
  }

  // The padding makes the stack pointer a multiple of 16 whatever the number of pointers.
  lemma Alignment(strings: nat, n: nat, sp: nat)
    requires sp == TableEnd(strings, n) - 8 * (n + 13)
    ensures sp % 16 == 0
  {
    var k, odd, h := strings / 16, (n + 1) % 2, (n + 1) / 2;
    assert strings - strings % 16 == 16 * k && n + 1 == 2 * h + odd;
    if odd == 1 {
      assert sp == 16 * (k - h - 7);
    } else {
      assert sp == 16 * (k - h - 6);
    }
  }

  // The alignment of the pointer after the strings.
  method AlignTables(strings: nat, n: nat) returns (ptr: nat)
    requires strings >= 23
    ensures ptr == TableEnd(strings, n) && strings - 23 <= ptr <= strings
  {
    ptr := strings - strings % 16;
    if (n + 1) % 2 == 1 {
      ptr := ptr - 8;
    }
  }

  class Image {
    var mem: seq<Byte>

    method Poke(a: nat, w: nat)
      requires a + 8 <= |mem| && Word(w)
      modifies this
      ensures Same(old(mem), mem, a, a + 8) && Peek(mem, a) == w
    {
      PokePeek(mem, a, w);
      StoreSame(mem, a, Bytes(w, 8));
      mem := Store(mem, a, Bytes(w, 8));
    }

    // strcpy
    method Strcpy(dst: nat, s: seq<Byte>)
      requires dst + |s| + 1 <= |mem|
      modifies this
      ensures Same(old(mem), mem, dst, dst + |s| + 1) && mem[dst..dst + |s| + 1] == s + [0]
    {
      for i := 0 to |s|
        invariant Same(old(mem), mem, dst, dst + i) && mem[dst..dst + i] == s[..i]
      {
        mem := mem[dst + i := s[i]];
        assert mem[dst..dst + i + 1] == mem[dst..dst + i] + [s[i]];
      }
      mem := mem[dst + |s| := 0];
      assert mem[dst..dst + |s| + 1] == mem[dst..dst + |s|] + [0];
    }

    // The loops that copy the strings, each below the one before.
    method PlaceStrings(list: seq<seq<Byte>>, top: nat) returns (ptr: nat)
      requires Size(list, |list|) <= top <= |mem|
      modifies this
      ensures ptr == top - Size(list, |list|)
      ensures StringsAt(mem, list, top, |list|) && Same(old(mem), mem, ptr, top)
    {
      ptr := top;
      for i := 0 to |list|
        invariant Size(list, i) <= top && ptr == top - Size(list, i)
        invariant StringsAt(mem, list, top, i) && Same(old(mem), mem, ptr, top)
      {
        ghost var before := mem;
        SizeMonotone(list, i + 1, |list|);
        ptr := ptr - (|list[i]| + 1);
        Strcpy(ptr, list[i]);
        StringsSurvive(before, mem, ptr, ptr + |list[i]| + 1, list, top, i);
      }
    }

    // The loops that fill a pointer table; `rsp` runs down over the strings again.
    method PlacePointers(list: seq<seq<Byte>>, at: nat, top: nat) returns (rsp: nat)
      requires at + 8 * |list| <= |mem| && Size(list, |list|) <= top && Word(top)
      modifies this
      ensures rsp == top - Size(list, |list|)
      ensures PointersAt(mem, at, list, top, |list|) && Same(old(mem), mem, at, at + 8 * |list|)
    {
      rsp := top;
      for i := 0 to |list|
        invariant Size(list, i) <= top && rsp == top - Size(list, i)
        invariant PointersAt(mem, at, list, top, i) && Same(old(mem), mem, at, at + 8 * i)
      {
        ghost var before := mem;
        SizeMonotone(list, i + 1, |list|);
        rsp := rsp - (|list[i]| + 1);
        Poke(at + 8 * i, rsp);
        forall j | 0 <= j < i
          ensures Entry(mem, at, j) == top - Size(list, j + 1)
        {
          EntrySame(before, mem, at + 8 * i, at + 8 * i + 8, at, j);
          assert Entry(before, at, j) == top - Size(list, j + 1);
        }
        assert Entry(mem, at, i) == rsp;
      }
    }

    // *(--ptr) = 0; ptr -= cnt; and the loop over the list.
    method PlaceTable(list: seq<seq<Byte>>, ptr: nat, top: nat) returns (at: nat, rsp: nat)
      requires 8 + 8 * |list| <= ptr <= |mem| && Size(list, |list|) <= top && Word(top)
      modifies this
      ensures at == ptr - 8 - 8 * |list| && rsp == top - Size(list, |list|)
      ensures TableAt(mem, at, list, top) && Same(old(mem), mem, at, ptr)
    {
      Poke(ptr - 8, 0);
      ghost var m := mem;
      at := ptr - 8 - 8 * |list|;
      rsp := PlacePointers(list, at, top);
      PeekSame(m, mem, at, ptr - 8, ptr - 8);
    }

    // ptr[0] = ELF_AT_PHNUM; ... ptr[9] = 0;
    method PlaceAux(aux: Aux, at: nat)
      requires at + 80 <= |mem|
      requires Word(aux.phnum) && Word(aux.phent) && Word(aux.phdr) && Word(aux.entry)
      modifies this
      ensures Same(old(mem), mem, at, at + 80) && AuxAt(mem, at, aux)
    {
      var words := AuxWords(aux);
      for k := 0 to 10
        invariant Same(old(mem), mem, at, at + 8 * k)
        invariant forall i | 0 <= i < k :: Entry(mem, at, i) == words[i]
      {
        ghost var before := mem;
        Poke(at + 8 * k, words[k]);
        forall i | 0 <= i < k
          ensures Entry(mem, at, i) == words[i]
        {
          EntrySame(before, mem, at + 8 * k, at + 8 * k + 8, at, i);
        }
        assert Entry(mem, at, k) == words[k];
      }
    }

    // The copying loops: both string lists lie below `top`.
    method PlaceAllStrings(argv: seq<seq<Byte>>, envp: seq<seq<Byte>>, top: nat) returns (ptr: nat)
      requires Size(envp, |envp|) + Size(argv, |argv|) <= top <= |mem|
      modifies this
      ensures ptr == top - Size(envp, |envp|) - Size(argv, |argv|) && Same(old(mem), mem, ptr, top)
      ensures StringsAt(mem, envp, top, |envp|) && StringsAt(mem, argv, top - Size(envp, |envp|), |argv|)
    {
      var bottom := PlaceStrings(envp, top);
      ghost var m := mem;
      ptr := PlaceStrings(argv, bottom);
      StringsSurvive(m, mem, ptr, bottom, envp, top, |envp|);
    }

    // From `ptr -= 10` to the end: the three tables and the argument count.
    method PlaceTables(argv: seq<seq<Byte>>, envp: seq<seq<Byte>>, aux: Aux, top: nat, end: nat)
      returns (sp: nat, ghost env: nat, ghost auxAt: nat)
      requires Size(envp, |envp|) + Size(argv, |argv|) <= top && Word(top) && end <= |mem|
      requires 8 * (|argv| + |envp| + 13) <= end && Word(end)
      requires Word(aux.phnum) && Word(aux.phent) && Word(aux.phdr) && Word(aux.entry)
      modifies this
      ensures sp == end - 8 * (|argv| + |envp| + 13) && auxAt + 80 == end && Same(old(mem), mem, sp, end)
      ensures TablesAt(mem, sp, env, auxAt, argv, envp, aux, top)
    {
      var ptr := end - 80;
      auxAt := ptr;
      PlaceAux(aux, ptr);
      ghost var m0 := mem;
      var at, rsp := PlaceTable(envp, ptr, top);
      env := at;
      ghost var m1 := mem;
      AuxSurvives(m0, m1, at, ptr, ptr, aux);
      var arg, rest := PlaceTable(argv, at, rsp);
      ghost var m2 := mem;
      AuxSurvives(m1, m2, arg, env, auxAt, aux);
      TableSurvives(m1, m2, arg, env, env, envp, top);
      sp := arg - 8;
      Poke(sp, |argv|);
      AuxSurvives(m2, mem, sp, arg, auxAt, aux);
      TableSurvives(m2, mem, sp, arg, env, envp, top);
      TableSurvives(m2, mem, sp, arg, arg, argv, rsp);
    }

    // The body of sched_arg_placement, with the addresses of the tables.
    method LayOut(argv: seq<seq<Byte>>, envp: seq<seq<Byte>>, aux: Aux, top: nat)
      returns (sp: nat, ghost env: nat, ghost auxAt: nat)
      requires top <= |mem| && Word(top) && Needed(argv, envp) < top
      requires Word(aux.phnum) && Word(aux.phent) && Word(aux.phdr) && Word(aux.entry)
      modifies this
      ensures sp % 16 == 0 && 0 < sp
      ensures Laid(mem, sp, env, auxAt, argv, envp, aux, top)
      ensures Same(old(mem), mem, sp, top)
    {
      var strings := PlaceAllStrings(argv, envp, top);
      ghost var m := mem;
      var ptr := AlignTables(strings, |argv| + |envp|);
      sp, env, auxAt := PlaceTables(argv, envp, aux, top, ptr);
      Alignment(strings, |argv| + |envp|, sp);
      StringsSurvive(m, mem, sp, ptr, envp, top, |envp|);
      StringsSurvive(m, mem, sp, ptr, argv, top - Size(envp, |envp|), |argv|);
    }

    // sched_arg_placement: builds the initial stack below `top` and returns its stack pointer, 16-byte aligned.
    // Decoding from there gives back exactly what was put in; memory outside [sp, top) is untouched.
    method ArgPlacement(argv: seq<seq<Byte>>, envp: seq<seq<Byte>>, aux: Aux, top: nat) returns (sp: nat)
      requires top <= |mem| && Word(top) && Needed(argv, envp) < top
      requires Word(aux.phnum) && Word(aux.phent) && Word(aux.phdr) && Word(aux.entry)
      requires forall i | 0 <= i < |argv| :: CString(argv[i])
      requires forall i | 0 <= i < |envp| :: CString(envp[i])
      modifies this
      ensures sp % 16 == 0 && sp + 8 <= |mem| && Same(old(mem), mem, sp, top)
      ensures Decode(mem, sp) == Program(|argv|, argv, envp, AuxPairs(aux))
      ensures var found := Decode(mem, sp).aux;
        && Lookup(found, AT_PHDR) == Some(aux.phdr) && Lookup(found, AT_PHENT) == Some(aux.phent)
        && Lookup(found, AT_PHNUM) == Some(aux.phnum) && Lookup(found, AT_ENTRY) == Some(aux.entry)
    {
      AuxValues(aux);
      ghost var env, auxAt;
      sp, env, auxAt := LayOut(argv, envp, aux, top);
      ImageDecodes(mem, sp, env, auxAt, argv, envp, aux, top);
    }
  }

  // ----- decoding -----

  // The words from `a` up to a null word.
  function ReadWords(mem: seq<Byte>, a: nat): seq<nat>
    decreases |mem| - a
  {
    if a + 8 > |mem| || Peek(mem, a) == 0 then [] else [Peek(mem, a)] + ReadWords(mem, a + 8)
  }

  // The auxiliary vector: pairs of type and value up to AT_NULL.
  function ReadAux(mem: seq<Byte>, a: nat): seq<(nat, nat)>
    decreases |mem| - a
  {
    if a + 16 > |mem| || Peek(mem, a) == 0 then [] else [(Peek(mem, a), Peek(mem, a + 8))] + ReadAux(mem, a + 16)
  }

  function ReadStrings(mem: seq<Byte>, pointers: seq<nat>): seq<seq<Byte>> {
    seq(|pointers|, i requires 0 <= i < |pointers| => ReadString(mem, pointers[i]))
  }

  datatype Program = Program(argc: nat, argv: seq<seq<Byte>>, envp: seq<seq<Byte>>, aux: seq<(nat, nat)>)

  // The start-up code's view: the argument count at the stack pointer, then the argument pointers and a null
  // word, the environment pointers and a null word, and the auxiliary vector.
  function Decode(mem: seq<Byte>, sp: nat): Program
    requires sp + 8 <= |mem|
  {
    var args := ReadWords(mem, ArgStart(sp));
    var envAt := EnvAfter(ArgStart(sp), |args|);
    var env := ReadWords(mem, envAt);
    Program(Peek(mem, sp), ReadStrings(mem, args), ReadStrings(mem, env), ReadAux(mem, EnvAfter(envAt, |env|)))
  }

  lemma {:induction false} ReadTable(mem: seq<Byte>, at: nat, words: seq<nat>)
    requires at + 8 * |words| + 8 <= |mem| && Entry(mem, at, |words|) == 0
    requires forall i | 0 <= i < |words| :: words[i] != 0 && Entry(mem, at, i) == words[i]
    ensures ReadWords(mem, at) == words
    decreases |words|
  {
    if words != [] {
      forall i | 0 <= i < |words[1..]|
        ensures words[1..][i] != 0 && Entry(mem, at + 8, i) == words[1..][i]
      {
        assert words[1..][i] == words[i + 1] && Entry(mem, at, i + 1) == words[i + 1];
      }
      assert Entry(mem, at + 8, |words[1..]|) == Entry(mem, at, |words|);
      ReadTable(mem, at + 8, words[1..]);
      assert Entry(mem, at, 0) == words[0];
    }
  }

  lemma ReadPlaced(mem: seq<Byte>, list: seq<seq<Byte>>, top: nat, i: nat)
    requires Size(list, |list|) < top && StringsAt(mem, list, top, |list|) && i < |list| && CString(list[i])
    ensures 0 < top - Size(list, i + 1) && ReadString(mem, top - Size(list, i + 1)) == list[i]
  {
    SizeMonotone(list, i + 1, |list|);
    assert PlacedAt(mem, list, top, i);
    ReadBack(mem, top - Size(list, i + 1), list[i]);
  }

  function Table(mem: seq<Byte>, at: nat, n: nat): (r: seq<nat>)
    requires at + 8 * n <= |mem|
    ensures |r| == n && forall i | 0 <= i < n :: r[i] == Entry(mem, at, i)
  {
    seq(n, i requires 0 <= i < n => Entry(mem, at, i))
  }

  // A table of pointers to placed strings reads back as the list of strings.
  lemma ReadList(mem: seq<Byte>, at: nat, list: seq<seq<Byte>>, top: nat)
    requires Size(list, |list|) < top && TableAt(mem, at, list, top)
    requires StringsAt(mem, list, top, |list|) && forall i | 0 <= i < |list| :: CString(list[i])
    ensures |ReadWords(mem, at)| == |list| && ReadStrings(mem, ReadWords(mem, at)) == list
  {
    var p := Table(mem, at, |list|);
    forall i | 0 <= i < |list|
      ensures p[i] != 0 && ReadString(mem, p[i]) == list[i]
    {
      assert p[i] == Entry(mem, at, i);
      ReadPlaced(mem, list, top, i);
    }
    ReadTable(mem, at, p);
  }

  function AuxPairs(aux: Aux): seq<(nat, nat)> {
    [(5, aux.phnum), (4, aux.phent), (3, aux.phdr), (9, aux.entry)]
  }

  // Types of auxiliary entries (section 3.4.3 of the System V AMD64 psABI).
  const AT_PHDR: nat := 3
  const AT_PHENT: nat := 4
  const AT_PHNUM: nat := 5
  const AT_ENTRY: nat := 9

  // What start-up code finds for a type: the first entry of that type.
  function Lookup(pairs: seq<(nat, nat)>, kind: nat): Option<nat> {
    if pairs == [] then None else if pairs[0].0 == kind then Some(pairs[0].1) else Lookup(pairs[1..], kind)
  }

  // Each type carries its own value, and there is no other type.
  lemma AuxValues(aux: Aux)
    ensures var pairs := AuxPairs(aux);
      && Lookup(pairs, AT_PHDR) == Some(aux.phdr) && Lookup(pairs, AT_PHENT) == Some(aux.phent)
      && Lookup(pairs, AT_PHNUM) == Some(aux.phnum) && Lookup(pairs, AT_ENTRY) == Some(aux.entry)
      && forall kind | kind !in {AT_PHDR, AT_PHENT, AT_PHNUM, AT_ENTRY} :: Lookup(pairs, kind) == None
  {
    forall kind
      ensures Lookup(AuxPairs(aux), kind) ==
        if kind == 5 then Some(aux.phnum) else if kind == 4 then Some(aux.phent)
        else if kind == 3 then Some(aux.phdr) else if kind == 9 then Some(aux.entry) else None
    {
      LookupFirst((5, aux.phnum), [(4, aux.phent), (3, aux.phdr), (9, aux.entry)], kind);
      LookupFirst((4, aux.phent), [(3, aux.phdr), (9, aux.entry)], kind);
      LookupFirst((3, aux.phdr), [(9, aux.entry)], kind);
      LookupFirst((9, aux.entry), [], kind);
    }
  }

  lemma LookupFirst(pair: (nat, nat), rest: seq<(nat, nat)>, kind: nat)
    ensures Lookup([pair] + rest, kind) == if pair.0 == kind then Some(pair.1) else Lookup(rest, kind)
  {
    assert ([pair] + rest)[1..] == rest;
  }

  lemma ReadAuxBack(mem: seq<Byte>, a: nat, aux: Aux)
    requires AuxAt(mem, a, aux)
    ensures ReadAux(mem, a) == AuxPairs(aux)
  {
    var w := AuxWords(aux);
    assert Entry(mem, a, 0) == w[0] && Entry(mem, a, 1) == w[1];
    assert Entry(mem, a, 2) == w[2] && Entry(mem, a, 3) == w[3];
    assert Entry(mem, a, 4) == w[4] && Entry(mem, a, 5) == w[5];
    assert Entry(mem, a, 6) == w[6] && Entry(mem, a, 7) == w[7];
    assert Entry(mem, a, 8) == w[8];
    assert ReadAux(mem, a + 64) == [];
    assert ReadAux(mem, a + 48) == [(9, aux.entry)];
    assert ReadAux(mem, a + 32) == [(3, aux.phdr), (9, aux.entry)];
    assert ReadAux(mem, a + 16) == [(4, aux.phent), (3, aux.phdr), (9, aux.entry)];
  }

  // The round trip: decoding the image gives back the arguments, the environment and the auxiliary vector.
  lemma ImageDecodes(mem: seq<Byte>, sp: nat, env: nat, auxAt: nat,
                     argv: seq<seq<Byte>>, envp: seq<seq<Byte>>, aux: Aux, top: nat)
    requires Laid(mem, sp, env, auxAt, argv, envp, aux, top)
    requires forall i | 0 <= i < |argv| :: CString(argv[i])
    requires forall i | 0 <= i < |envp| :: CString(envp[i])
    ensures sp + 8 <= |mem| && Decode(mem, sp) == Program(|argv|, argv, envp, AuxPairs(aux))
  {
    ReadList(mem, ArgStart(sp), argv, top - Size(envp, |envp|));
    ReadList(mem, env, envp, top);
    ReadAuxBack(mem, auxAt, aux);
  }
}
