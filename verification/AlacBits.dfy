/** The bit reader of alac.c: big-endian reads of up to 32 bits from a byte
    buffer, with an "unread" that steps back over bits already consumed. */
module AlacBits {
  import opened Arith

  type Bits = seq<bool>

  // ----- Bit strings and the numbers they stand for -----

  function BitOf(b: byte, i: nat): bool
    requires i < 8
  {
    (b / Pow2(7 - i)) % 2 == 1
  }

  /** The bits of a buffer, most significant bit of each byte first. */
  function BitsOf(buf: seq<byte>): (bits: Bits)
    ensures |bits| == 8 * |buf|
  {
    seq(8 * |buf|, i requires 0 <= i < 8 * |buf| => BitOf(buf[i / 8], i % 8))
  }

  /** The n bits from position p, read as a big-endian number. */
  function Value(bits: Bits, p: nat, n: nat): nat
    requires p + n <= |bits|
  {
    if n == 0 then 0 else 2 * Value(bits, p, n - 1) + (if bits[p + n - 1] then 1 else 0)
  }

  /** The n-bit big-endian representation of v. */
  function Be(v: nat, n: nat): (bits: Bits)
    ensures |bits| == n
  {
    if n == 0 then [] else Be(v / 2, n - 1) + [v % 2 == 1]
  }

  /** e is what the buffer holds from position p. */
  predicate At(bits: Bits, p: nat, e: Bits) {
    p + |e| <= |bits| && bits[p..p + |e|] == e
  }

  lemma AtSplit(bits: Bits, p: nat, a: Bits, b: Bits)
    requires At(bits, p, a + b)
    ensures At(bits, p, a) && At(bits, p + |a|, b)
  {
    var e := a + b;
    assert a == e[..|a|] && b == e[|a|..];
    assert bits[p..p + |a|] == bits[p..p + |e|][..|a|];
    assert bits[p + |a|..p + |a| + |b|] == bits[p..p + |e|][|a|..];
  }

  lemma {:induction false} ValueBound(bits: Bits, p: nat, n: nat)
    requires p + n <= |bits|
    ensures Value(bits, p, n) < Pow2(n)
  {
    if n != 0 {
      ValueBound(bits, p, n - 1);
    }
  }

  lemma {:induction false} ValueSplit(bits: Bits, p: nat, a: nat, b: nat)
    requires p + a + b <= |bits|
    ensures Value(bits, p, a + b) == Value(bits, p, a) * Pow2(b) + Value(bits, p + a, b)
  {
    if b != 0 {
      ValueSplit(bits, p, a, b - 1);
      var v, x := Value(bits, p, a), Pow2(b - 1);
      assert v * (2 * x) == 2 * (v * x);
    }
  }

  /** Reading back a number written in n bits. */
  lemma {:induction false} ValueOfBe(bits: Bits, p: nat, v: nat, n: nat)
    requires v < Pow2(n)
    requires At(bits, p, Be(v, n))
    ensures Value(bits, p, n) == v
  {
    if n != 0 {
      AtSplit(bits, p, Be(v / 2, n - 1), [v % 2 == 1]);
      ValueOfBe(bits, p, v / 2, n - 1);
      assert bits[p + n - 1] == bits[p + n - 1..p + n][0];
    }
  }

  lemma {:induction false} ByteValue(buf: seq<byte>, i: nat, n: nat)
    requires i < |buf| && n <= 8
    ensures Value(BitsOf(buf), 8 * i, n) == buf[i] / Pow2(8 - n)
  {
    hide Pow2;
    var b := buf[i];
    if n == 0 {
      Pow2At8();
    } else {
      ByteValue(buf, i, n - 1);
      Pow2Double(8 - n);
      DivDiv(b, Pow2(8 - n), 2);
      assert (8 * i + n - 1) / 8 == i && (8 * i + n - 1) % 8 == n - 1;
      assert BitsOf(buf)[8 * i + n - 1] == BitOf(b, n - 1);
    }
  }

  lemma ThreeBytesValue(buf: seq<byte>, i: nat)
    requires i + 2 < |buf|
    ensures Value(BitsOf(buf), 8 * i, 24) == buf[i] as int * 0x1_0000 + buf[i + 1] as int * 0x100 + buf[i + 2]
  {
    hide BitsOf, Value;
    var bits := BitsOf(buf);
    Pow2At8();
    ByteValue(buf, i, 8);
    ByteValue(buf, i + 1, 8);
    ByteValue(buf, i + 2, 8);
    ValueSplit(bits, 8 * i, 8, 8);
    ValueSplit(bits, 8 * i, 16, 8);
  }

  /** Shifting a 24-bit window left by acc, dropping what leaves the window and
      keeping the top n bits selects the n bits after the first acc. */
  lemma WindowSelects(bits: Bits, p: nat, acc: nat, n: nat)
    requires p + 24 <= |bits| && acc + n <= 24
    ensures ((Value(bits, p, 24) * Pow2(acc)) % Pow2(24)) / Pow2(24 - n) == Value(bits, p + acc, n)
  {
    var a, c := Value(bits, p, acc), Value(bits, p + acc, n);
    var rest := 24 - acc - n;
    var d := Value(bits, p + acc + n, rest);
    ValueSplit(bits, p, acc, 24 - acc);
    ValueSplit(bits, p + acc, n, rest);
    ValueBound(bits, p + acc, n);
    ValueBound(bits, p + acc + n, rest);
    Pow2Add(24 - acc, acc);
    Pow2Add(rest, acc);
    Pow2Add(n, 24 - n);
    Pow2Add(n, rest);
    SelectArith(a, c, d, Pow2(acc), Pow2(n), Pow2(rest));
  }

  lemma SelectArith(a: nat, c: nat, d: nat, x: nat, y: nat, z: nat)
    requires x > 0 && y > 0 && z > 0 && c < y && d < z
    ensures y * (z * x) > 0 && z * x > 0
    ensures (((a * (y * z) + (c * z + d)) * x) % (y * (z * x))) / (z * x) == c
  {
    var zx := z * x;
    var low := c * zx + d * x;
    Distribute(a, c, d, x, y, z);
    Scale(d, z, x);
    Scale(c, y, zx);
    DivMod(a, y * zx, low);
    DivMod(c, zx, d * x);
  }

  lemma Distribute(a: nat, c: nat, d: nat, x: nat, y: nat, z: nat)
    ensures (a * (y * z) + (c * z + d)) * x == a * (y * (z * x)) + (c * (z * x) + d * x)
  {
    MulAssoc(y, z, x);
    MulAssoc(a, y * z, x);
    MulAssoc(c, z, x);
    assert (a * (y * z) + (c * z + d)) * x == a * (y * z) * x + c * z * x + d * x;
  }

  // ----- What a read touches -----

  /** readbits_16 looks at three whole bytes, whatever the number of bits. */
  predicate Readable16(bits: Bits, p: nat) {
    p / 8 * 8 + 24 <= |bits|
  }

  predicate Readable(bits: Bits, p: nat, n: nat) {
    if n > 16 then Readable16(bits, p) && Readable16(bits, p + 16) else Readable16(bits, p)
  }

  /** Two bytes of padding after `end` make every read up to there possible. */
  predicate Padded(bits: Bits, end: nat) {
    end + 16 <= |bits| && |bits| % 8 == 0
  }

  lemma PaddedReadable(bits: Bits, p: nat, n: nat, end: nat)
    requires Padded(bits, end)
    requires p < end && (n <= 16 || p + n <= end)
    ensures Readable(bits, p, n)
  {
  }

  class BitReader {
    var input: seq<byte>
    var pos: nat
    var acc: nat

    ghost predicate Valid()
      reads this
    {
      acc < 8
    }

    ghost function Bits(): Bits
      reads this`input
    {
      BitsOf(input)
    }

    /** The number of bits consumed so far. */
    ghost function P(): nat
      reads this`pos, this`acc
    {
      8 * pos + acc
    }

    constructor ()
      ensures Valid()
    {
      input, pos, acc := [], 0, 0;
    }

    method Start(buffer: seq<byte>)
      modifies this
      ensures Valid() && Bits() == BitsOf(buffer) && P() == 0
    {
      input, pos, acc := buffer, 0, 0;
    }

    method ReadBits16(bits: nat) returns (result: nat)
      requires Valid() && bits <= 16 && Readable16(Bits(), P())
      modifies this`pos, this`acc
      ensures Valid() && P() == old(P()) + bits
      ensures result == Value(Bits(), old(P()), bits) && result < Pow2(bits)
    {
      hide Value, BitsOf;
      result := input[pos] as int * 0x1_0000 + input[pos + 1] as int * 0x100 + input[pos + 2];
      ThreeBytesValue(input, pos);
      WindowSelects(Bits(), 8 * pos, acc, bits);
      ValueBound(Bits(), P(), bits);
      result := (result * Pow2(acc)) % Pow2(24);
      result := result / Pow2(24 - bits);
      var newAcc := acc + bits;
      pos := pos + newAcc / 8;
      acc := newAcc % 8;
    }

    method ReadBits(bits: nat) returns (result: nat)
      requires Valid() && bits <= 32 && Readable(Bits(), P(), bits)
      modifies this`pos, this`acc
      ensures Valid() && P() == old(P()) + bits
      ensures result == Value(Bits(), old(P()), bits) && result < Pow2(bits)
    {
      hide Value, BitsOf;
      ghost var p := P();
      var n := bits;
      var high := 0;
      if n > 16 {
        n := n - 16;
        high := ReadBits16(16);
        high := high * Pow2(n);
        ValueSplit(Bits(), p, 16, n);
      }
      result := ReadBits16(n);
      result := high + result;
      ValueBound(Bits(), p, bits);
    }

    method ReadBit() returns (result: bool)
      requires Valid() && P() < |Bits()|
      modifies this`pos, this`acc
      ensures Valid() && P() == old(P()) + 1
      ensures result == Bits()[old(P())]
    {
      hide Pow2, BitOf;
      var shifted := input[pos] as int * Pow2(acc);
      result := (shifted / Pow2(7)) % 2 == 1;
      ShiftSelects(input[pos], acc);
      var newAcc := acc + 1;
      pos := pos + newAcc / 8;
      acc := newAcc % 8;
    }

    method UnreadBits(bits: nat)
      requires Valid() && bits <= P()
      modifies this`pos, this`acc
      ensures Valid() && P() == old(P()) - bits
    {
      var newAcc := acc - bits;
      pos := pos + newAcc / 8;
      acc := newAcc % 8;
    }
  }

  lemma ShiftSelects(b: byte, acc: nat)
    requires acc < 8
    ensures (b as int * Pow2(acc) / Pow2(7)) % 2 == 1 <==> BitOf(b, acc)
  {
    var x, y := Pow2(acc), Pow2(7 - acc);
    Pow2Add(7 - acc, acc);
    ShiftArith(b, x, y);
  }

  lemma ShiftArith(b: nat, x: nat, y: nat)
    requires x > 0 && y > 0
    ensures y * x > 0 && b * x / (y * x) == b / y
  {
    var q, r := b / y, b % y;
    assert b == q * y + r;
    MulAssoc(q, y, x);
    assert b * x == q * (y * x) + r * x;
    Scale(r, y, x);
    DivMod(q, y * x, r * x);
  }
}
