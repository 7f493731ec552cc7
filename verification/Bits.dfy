// The bit and rounding macros of kernel/lib/string.h.
module Bits {

  predicate ByteTest(b: bv8, k: nat)
    requires k < 8
  {
    (b >> k) & 1 == 1
  }

  function ByteSet(b: bv8, k: nat): bv8
    requires k < 8
  {
    b | (1 << k)
  }

  function ByteClear(b: bv8, k: nat): bv8
    requires k < 8
  {
    b & !(1 << k)
  }

  lemma ByteSetAt(b: bv8, k: nat, m: nat)
    requires k < 8 && m < 8
    ensures ByteTest(ByteSet(b, k), m) == (m == k || ByteTest(b, m))
  {
    assert k == 0 || k == 1 || k == 2 || k == 3 || k == 4 || k == 5 || k == 6 || k == 7;
    assert m == 0 || m == 1 || m == 2 || m == 3 || m == 4 || m == 5 || m == 6 || m == 7;
  }

  lemma ByteClearAt(b: bv8, k: nat, m: nat)
    requires k < 8 && m < 8
    ensures ByteTest(ByteClear(b, k), m) == (m != k && ByteTest(b, m))
  {
    assert k == 0 || k == 1 || k == 2 || k == 3 || k == 4 || k == 5 || k == 6 || k == 7;
    assert m == 0 || m == 1 || m == 2 || m == 3 || m == 4 || m == 5 || m == 6 || m == 7;
  }

  // BIT_TEST
  predicate Test(a: seq<bv8>, i: nat)
    requires i / 8 < |a|
  {
    ByteTest(a[i / 8], i % 8)
  }

  // BIT_SET
  function Set(a: seq<bv8>, i: nat): seq<bv8>
    requires i / 8 < |a|
  {
    a[i / 8 := ByteSet(a[i / 8], i % 8)]
  }

  // BIT_CLEAR
  function Clear(a: seq<bv8>, i: nat): seq<bv8>
    requires i / 8 < |a|
  {
    a[i / 8 := ByteClear(a[i / 8], i % 8)]
  }

  // The array as a sequence of bits, the form in which the allocators' bitmaps are modelled.
  ghost function View(a: seq<bv8>): seq<bool> {
    seq(8 * |a|, i requires 0 <= i < 8 * |a| => Test(a, i))
  }

  // BIT_SET turns on bit `i` and no other bit of the whole array.
  lemma SetUpdatesView(a: seq<bv8>, i: nat)
    requires i / 8 < |a|
    ensures View(Set(a, i)) == View(a)[i := true]
  {
    forall j: nat | j < 8 * |a|
      ensures Test(Set(a, i), j) == (j == i || Test(a, j))
    {
      if j / 8 == i / 8 { ByteSetAt(a[i / 8], i % 8, j % 8); }
    }
  }

  // BIT_CLEAR turns off bit `i` and no other bit of the whole array.
  lemma ClearUpdatesView(a: seq<bv8>, i: nat)
    requires i / 8 < |a|
    ensures View(Clear(a, i)) == View(a)[i := false]
  {
    forall j: nat | j < 8 * |a|
      ensures Test(Clear(a, i), j) == (j != i && Test(a, j))
    {
      if j / 8 == i / 8 { ByteClearAt(a[i / 8], i % 8, j % 8); }
    }
  }

  // ----- pow2_roundup -----

  function Smear(a: bv64): bv64 {
    var b := a | (a >> 1);
    var c := b | (b >> 2);
    var d := c | (c >> 4);
    var e := d | (d >> 8);
    e | (e >> 16)
  }

  function RoundUp(a: bv64): bv64 { Smear(a - 1) + 1 }

  predicate LeastPow2(a: bv64, r: bv64) {
    r != 0 && r & (r - 1) == 0 && a <= r && (r >> 1) < a
  }

  // No 32 zero bits in a row below the highest set bit: no such gap from bits 0 to 15, and none from bits 16 to 31 up.
  predicate Gapless(x: bv64) { GaplessLow(x) && GaplessHigh(x) }

  predicate GaplessLow(x: bv64) {
    && (x <= 0x0 || x & 0xffff_ffff != 0) && (x <= 0x1 || x & 0x1_ffff_fffe != 0)
    && (x <= 0x3 || x & 0x3_ffff_fffc != 0) && (x <= 0x7 || x & 0x7_ffff_fff8 != 0)
    && (x <= 0xf || x & 0xf_ffff_fff0 != 0) && (x <= 0x1f || x & 0x1f_ffff_ffe0 != 0)
    && (x <= 0x3f || x & 0x3f_ffff_ffc0 != 0) && (x <= 0x7f || x & 0x7f_ffff_ff80 != 0)
    && (x <= 0xff || x & 0xff_ffff_ff00 != 0) && (x <= 0x1ff || x & 0x1ff_ffff_fe00 != 0)
    && (x <= 0x3ff || x & 0x3ff_ffff_fc00 != 0) && (x <= 0x7ff || x & 0x7ff_ffff_f800 != 0)
    && (x <= 0xfff || x & 0xfff_ffff_f000 != 0) && (x <= 0x1fff || x & 0x1fff_ffff_e000 != 0)
    && (x <= 0x3fff || x & 0x3fff_ffff_c000 != 0) && (x <= 0x7fff || x & 0x7fff_ffff_8000 != 0)
  }

  predicate GaplessHigh(x: bv64) {
    && (x <= 0xffff || x & 0xffff_ffff_0000 != 0) && (x <= 0x1_ffff || x & 0x1_ffff_fffe_0000 != 0)
    && (x <= 0x3_ffff || x & 0x3_ffff_fffc_0000 != 0) && (x <= 0x7_ffff || x & 0x7_ffff_fff8_0000 != 0)
    && (x <= 0xf_ffff || x & 0xf_ffff_fff0_0000 != 0) && (x <= 0x1f_ffff || x & 0x1f_ffff_ffe0_0000 != 0)
    && (x <= 0x3f_ffff || x & 0x3f_ffff_ffc0_0000 != 0) && (x <= 0x7f_ffff || x & 0x7f_ffff_ff80_0000 != 0)
    && (x <= 0xff_ffff || x & 0xff_ffff_ff00_0000 != 0) && (x <= 0x1ff_ffff || x & 0x1ff_ffff_fe00_0000 != 0)
    && (x <= 0x3ff_ffff || x & 0x3ff_ffff_fc00_0000 != 0) && (x <= 0x7ff_ffff || x & 0x7ff_ffff_f800_0000 != 0)
    && (x <= 0xfff_ffff || x & 0xfff_ffff_f000_0000 != 0) && (x <= 0x1fff_ffff || x & 0x1fff_ffff_e000_0000 != 0)
    && (x <= 0x3fff_ffff || x & 0x3fff_ffff_c000_0000 != 0) && (x <= 0x7fff_ffff || x & 0x7fff_ffff_8000_0000 != 0)
  }

  // No 32 zero bits in a row anywhere.
  predicate Windows(x: bv64) {
    && x & 0xffff_ffff != 0 && x & 0x1_ffff_fffe != 0
    && x & 0x3_ffff_fffc != 0 && x & 0x7_ffff_fff8 != 0
    && x & 0xf_ffff_fff0 != 0 && x & 0x1f_ffff_ffe0 != 0
    && x & 0x3f_ffff_ffc0 != 0 && x & 0x7f_ffff_ff80 != 0
    && x & 0xff_ffff_ff00 != 0 && x & 0x1ff_ffff_fe00 != 0
    && x & 0x3ff_ffff_fc00 != 0 && x & 0x7ff_ffff_f800 != 0
    && x & 0xfff_ffff_f000 != 0 && x & 0x1fff_ffff_e000 != 0
    && x & 0x3fff_ffff_c000 != 0 && x & 0x7fff_ffff_8000 != 0
    && x & 0xffff_ffff_0000 != 0 && x & 0x1_ffff_fffe_0000 != 0
    && x & 0x3_ffff_fffc_0000 != 0 && x & 0x7_ffff_fff8_0000 != 0
    && x & 0xf_ffff_fff0_0000 != 0 && x & 0x1f_ffff_ffe0_0000 != 0
    && x & 0x3f_ffff_ffc0_0000 != 0 && x & 0x7f_ffff_ff80_0000 != 0
    && x & 0xff_ffff_ff00_0000 != 0 && x & 0x1ff_ffff_fe00_0000 != 0
    && x & 0x3ff_ffff_fc00_0000 != 0 && x & 0x7ff_ffff_f800_0000 != 0
    && x & 0xfff_ffff_f000_0000 != 0 && x & 0x1fff_ffff_e000_0000 != 0
    && x & 0x3fff_ffff_c000_0000 != 0 && x & 0x7fff_ffff_8000_0000 != 0
  }

  // All ones exactly if the top bit is set and no gap is that wide.
  lemma SmearAll(x: bv64)
    ensures Smear(x) == 0xffff_ffff_ffff_ffff <==> x >= 0x8000_0000_0000_0000 && Windows(x)
  {}

  // The smearing shifts reach 31 places. The result is the least power of two exactly if 64 bits hold one and a - 1 has
  // no 32 zeros in a row below its highest bit.
  lemma RoundUpIsLeast(a: bv64)
    requires 1 <= a <= 0x8000_0000_0000_0000 && Gapless(a - 1)
    ensures LeastPow2(a, RoundUp(a))
  {
    if a <= 0xffff_ffff { RoundUpSmall(a); } else { RoundUpLarge(a); }
  }

  lemma RoundUpSmall(a: bv64)
    requires 1 <= a <= 0xffff_ffff
    ensures LeastPow2(a, RoundUp(a))
  {}

  lemma RoundUpLarge(a: bv64)
    requires 0xffff_ffff < a <= 0x8000_0000_0000_0000 && Gapless(a - 1)
    ensures LeastPow2(a, RoundUp(a))
  {}

  lemma RoundUpMissesLow(a: bv64)
    requires 1 <= a <= 0x8000_0000_0000_0000 && !GaplessLow(a - 1)
    ensures !LeastPow2(a, RoundUp(a))
  {}

  lemma RoundUpMissesHigh(a: bv64)
    requires 1 <= a <= 0x8000_0000_0000_0000 && !GaplessHigh(a - 1)
    ensures !LeastPow2(a, RoundUp(a))
  {}

  lemma NoneAbove(a: bv64, r: bv64)
    requires a > 0x8000_0000_0000_0000
    ensures !LeastPow2(a, r)
  {}

  // Every argument up to 2^32 is rounded right, and so is 2^33; 2^33 + 1 is not.
  lemma SmallGapless(x: bv64)
    ensures x <= 0xffff_ffff ==> Gapless(x)
    ensures Gapless(0x1_ffff_ffff) && !Gapless(0x2_0000_0000)
  {}

  // The steps of pow2_roundup.
  method SmearStep(a0: bv64) returns (a: bv64)
    ensures a == RoundUp(a0)
  {
    a := a0 - 1;
    a := a | (a >> 1);
    a := a | (a >> 2);
    a := a | (a >> 4);
    a := a | (a >> 8);
    a := a | (a >> 16);
    a := a + 1;
  }

  // pow2_roundup: the least power of two, for exactly these arguments.
  method Pow2Roundup(a0: bv64) returns (a: bv64)
    ensures a0 >= 1 ==> (LeastPow2(a0, a) <==> a0 <= 0x8000_0000_0000_0000 && Gapless(a0 - 1))
    ensures a == RoundUp(a0)
  {
    a := SmearStep(a0);
    if a0 > 0x8000_0000_0000_0000 {
      NoneAbove(a0, a);
    } else if a0 >= 1 {
      if !GaplessLow(a0 - 1) {
        RoundUpMissesLow(a0);
      } else if !GaplessHigh(a0 - 1) {
        RoundUpMissesHigh(a0);
      } else {
        RoundUpIsLeast(a0);
      }
    }
  }
}
