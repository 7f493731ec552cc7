// Rounding macros of kernel/lib/string.h and the division facts the models need.
module Arith {

  // DIV_ROUNDUP
  function DivRoundup(a: nat, b: nat): nat
    requires b > 0
  {
    (a + (b - 1)) / b
  }

  // ALIGN_UP
  function AlignUp(a: nat, b: nat): nat
    requires b > 0
  {
    DivRoundup(a, b) * b
  }

  lemma MulStep(c: int, d: int)
    requires c > 0
    ensures d >= 1 ==> c * d >= c
    ensures d <= -1 ==> c * d <= -c
  {}

  lemma DivUnique(h: nat, c: nat, q: nat, r: nat)
    requires c > 0 && h == c * q + r && r < c
    ensures h % c == r && h / c == q
  {
    var d := h / c - q;
    assert c * d == c * (h / c) - c * q;
    MulStep(c, d);
  }

  lemma MultipleMod(q: nat, b: nat)
    requires b > 0
    ensures (q * b) % b == 0 && (q * b) / b == q
  {
    DivUnique(q * b, b, q, 0);
  }

  // ALIGN_UP gives the least multiple of b that is at least a.
  lemma AlignUpLeast(a: nat, b: nat)
    requires b > 0
    ensures a <= AlignUp(a, b) < a + b && AlignUp(a, b) % b == 0
  {
    MultipleMod((a + b - 1) / b, b);
    assert a + b - 1 == b * ((a + b - 1) / b) + (a + b - 1) % b;
  }

  // Between two neighbouring multiples of b there is no third.
  lemma NoMultipleBetween(x: nat, y: nat, b: nat)
    requires b > 0 && x % b == 0 && y % b == 0 && x < y
    ensures x + b <= y
  {
    var d := y / b - x / b;
    assert y - x == b * d;
    MulStep(b, d);
  }

  lemma NextMultiple(x: nat, b: nat)
    requires b > 0 && x % b == 0
    ensures (x + b) % b == 0
  {
    assert x + b == (x / b + 1) * b;
    MultipleMod(x / b + 1, b);
  }
}
