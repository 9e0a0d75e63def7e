/** Powers of two and the fixed-width integer conversions of the C code. */
module Arith {

  type byte = x: int | 0 <= x < 0x100
  type uint16 = x: int | 0 <= x < 0x1_0000
  type int16 = x: int | -0x8000 <= x < 0x8000
  type int32 = x: int | -0x8000_0000 <= x < 0x8000_0000

  function Pow2(n: nat): (r: int)
    ensures r >= 1
  {
    if n == 0 then 1 else 2 * Pow2(n - 1)
  }

  /** The value v keeps after a conversion to an n-bit two's complement type. */
  function SignExt(v: int, n: nat): int
    requires n >= 1
  {
    var low := v % Pow2(n);
    if low < Pow2(n - 1) then low else low - Pow2(n)
  }

  predicate Signed(v: int, n: nat)
    requires n >= 1
  {
    -Pow2(n - 1) <= v < Pow2(n - 1)
  }

  function Wrap16(v: int): (r: int16)
  {
    Pow2At16();
    SignExtRange(v, 16);
    SignExt(v, 16)
  }

  function Wrap32(v: int): (r: int32)
  {
    Pow2At32();
    SignExtRange(v, 32);
    SignExt(v, 32)
  }

  function Min(a: int, b: int): int {
    if a <= b then a else b
  }

  function Max(a: int, b: int): int {
    if a <= b then b else a
  }

  lemma Pow2At8()
    ensures Pow2(7) == 0x80 && Pow2(8) == 0x100
  {
    assert Pow2(4) == 16;
  }

  lemma Pow2At16()
    ensures Pow2(9) == 0x200 && Pow2(15) == 0x8000 && Pow2(16) == 0x1_0000 && Pow2(17) == 0x2_0000
  {
    Pow2At8();
    Pow2Add(8, 8);
  }

  lemma Pow2At32()
    ensures Pow2(24) == 0x100_0000 && Pow2(31) == 0x8000_0000 && Pow2(32) == 0x1_0000_0000
  {
    Pow2At8();
    Pow2At16();
    Pow2Add(8, 16);
    Pow2Add(15, 16);
  }

  lemma Pow2Double(n: nat)
    ensures Pow2(n + 1) == Pow2(n) * 2
  {
  }

  lemma {:induction false} Pow2Add(a: nat, b: nat)
    ensures Pow2(a + b) == Pow2(a) * Pow2(b)
  {
    if a != 0 {
      Pow2Add(a - 1, b);
      assert Pow2(a + b) == 2 * (Pow2(a - 1) * Pow2(b));
    }
  }

  lemma {:induction false} Pow2Mono(a: nat, b: nat)
    requires a <= b
    ensures Pow2(a) <= Pow2(b)
  {
    if a < b {
      Pow2Mono(a, b - 1);
    }
  }

  lemma FloorOf(v: int, d: int)
    requires d > 0
    ensures d * (v / d) <= v < d * (v / d) + d
  {
  }

  lemma DivMod(q: int, d: int, r: int)
    requires d > 0 && 0 <= r < d
    ensures (q * d + r) / d == q
    ensures (q * d + r) % d == r
  {
    var x := q * d + r;
    var q', r' := x / d, x % d;
    assert x == q' * d + r';
    var k := q' - q;
    assert k * d == r - r';
    Bounded(k, d);
  }

  lemma Bounded(k: int, d: int)
    requires d > 0 && -d < k * d < d
    ensures k == 0
  {
  }

  lemma DivDiv(v: nat, a: nat, b: nat)
    requires a > 0 && b > 0
    ensures a * b > 0
    ensures (v / a) / b == v / (a * b)
  {
    var q, r := v / a, v % a;
    var q1, r1 := q / b, q % b;
    assert v == q * a + r && q == q1 * b + r1;
    Recompose(q1, r1, r, a, b);
    Scale(r1, b, a);
    DivMod(q1, a * b, r1 * a + r);
  }

  lemma Recompose(q: int, r1: int, r: int, a: int, b: int)
    ensures (q * b + r1) * a + r == q * (a * b) + (r1 * a + r)
  {
    assert (q * b + r1) * a == q * b * a + r1 * a;
    assert q * b * a == q * (a * b);
  }

  lemma Scale(c: nat, y: nat, w: nat)
    requires c < y && w > 0
    ensures 0 <= c * w && c * w + w <= y * w == w * y
  {
    assert (c + 1) * w <= y * w;
  }

  /** Two values that differ by a multiple of 2^n extend to the same value. */
  lemma SignExtCongruent(v: int, k: int, n: nat)
    requires n >= 1
    ensures SignExt(v + k * Pow2(n), n) == SignExt(v, n)
  {
    var m := Pow2(n);
    var q, r := v / m, v % m;
    assert v == q * m + r;
    assert v + k * m == (q + k) * m + r;
    DivMod(q + k, m, r);
  }

  /** The multiple of 2^n that an n-bit sign extension adds. */
  function Carry(v: int, n: nat): (k: int)
    requires n >= 1
    ensures SignExt(v, n) == v + k * Pow2(n)
  {
    var m := Pow2(n);
    var q, r := v / m, v % m;
    assert v == q * m + r;
    assert -q * m == -(q * m);
    assert (-q - 1) * m == -(q * m) - m;
    if r < Pow2(n - 1) then -q else -q - 1
  }

  lemma SignExtRange(v: int, n: nat)
    requires n >= 1
    ensures Signed(SignExt(v, n), n)
  {
    assert Pow2(n) == 2 * Pow2(n - 1);
  }

  lemma SignExtIdentity(v: int, n: nat)
    requires n >= 1 && Signed(v, n)
    ensures SignExt(v, n) == v
  {
    var m := Pow2(n);
    assert m == 2 * Pow2(n - 1);
    if v >= 0 {
      DivMod(0, m, v);
    } else {
      DivMod(-1, m, v + m);
    }
  }

  /** A wider sign extension before a narrower one does no harm. */
  lemma SignExtNarrows(v: int, wide: nat, n: nat)
    requires 1 <= n <= wide
    ensures SignExt(SignExt(v, wide), n) == SignExt(v, n)
  {
    var j := Carry(v, wide);
    var a, b := Pow2(wide - n), Pow2(n);
    Pow2Add(wide - n, n);
    MulAssoc(j, a, b);
    SignExtCongruent(v, j * a, n);
  }

  lemma MulAssoc(a: int, b: int, c: int)
    ensures a * (b * c) == (a * b) * c
  {
  }

  /** Adding back, modulo 2^n, what was subtracted modulo 2^n. */
  lemma SignExtRestores(x: int, a: int, n: nat)
    requires n >= 1 && Signed(x, n)
    ensures SignExt(a + SignExt(x - a, n), n) == x
  {
    var k := Carry(x - a, n);
    SignExtCongruent(x, k, n);
    SignExtIdentity(x, n);
  }
}
