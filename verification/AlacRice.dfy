/** The adaptive Rice decoder of alac.c, and the encoder it inverts. */
module AlacRice {
  import opened Arith
  import opened AlacBits
  import opened Wrappers

  const RICE_THRESHOLD := 8
  const MAX_HISTORY := 512 * 0xFFFF

  // ----- One codeword -----

  function Repeat(b: bool, n: nat): (bits: Bits)
    ensures |bits| == n
  {
    seq(n, _ => b)
  }

  lemma SmallModulus(v: nat, m: int)
    requires v < m
    ensures v % m == v
  {
  }

  /** ((1 << k) - 1) & mask, for a mask of maskBits ones. */
  function Multiplier(k: nat, maskBits: nat): (m: nat)
    requires k >= 1 && maskBits >= 1
    ensures 1 <= m <= Pow2(k) - 1
    ensures k == 1 ==> m == 1
  {
    var b := if k <= maskBits then k else maskBits;
    assert Pow2(b) == 2 * Pow2(b - 1);
    Pow2Mono(b, k);
    Pow2(b) - 1
  }

  /** It is 2^k - 1 cut to the mask. */
  lemma MultiplierIsMasked(k: nat, maskBits: nat)
    requires k >= 1 && maskBits >= 1
    ensures Multiplier(k, maskBits) == (Pow2(k) - 1) % Pow2(maskBits)
  {
    hide Pow2;
    if k <= maskBits {
      Pow2Mono(k, maskBits);
      SmallModulus(Pow2(k) - 1, Pow2(maskBits));
    } else {
      var a, m := Pow2(k - maskBits), Pow2(maskBits);
      Pow2Add(k - maskBits, maskBits);
      assert Pow2(k) - 1 == (a - 1) * m + (m - 1);
      DivMod(a - 1, m, m - 1);
    }
  }

  /** The number of ones before the first zero, counting on from x and giving up
      after the ninth; None when the buffer ends first. */
  function Prefix(bits: Bits, p: nat, x: nat): Option<nat>
    decreases RICE_THRESHOLD + 1 - x
  {
    if x > RICE_THRESHOLD then Some(x)
    else if p >= |bits| then None
    else if bits[p] then Prefix(bits, p + 1, x + 1)
    else Some(x)
  }

  datatype Codepoint = Codepoint(value: nat, end: nat)

  /** What entropy_decode_value makes of the bits at p. None: it would read
      outside the buffer. */
  function DecodeValue(bits: Bits, p: nat, sampleSize: nat, k: nat, maskBits: nat): (r: Option<Codepoint>)
    requires 1 <= sampleSize <= 32 && 1 <= k <= 16 && maskBits >= 1
  {
    match Prefix(bits, p, 0)
    case None => None
    case Some(x) =>
      if x > RICE_THRESHOLD then
        if !Readable(bits, p + x, sampleSize) then None
        else Some(Codepoint(Value(bits, p + x, sampleSize), p + x + sampleSize))
      else if k == 1 then Some(Codepoint(x, p + x + 1))
      else if !Readable(bits, p + x + 1, k) then None
      else
        var extra := Value(bits, p + x + 1, k);
        var scaled: nat := x * Multiplier(k, maskBits);
        if extra > 1 then Some(Codepoint(scaled + extra - 1, p + x + 1 + k))
        else Some(Codepoint(scaled, p + x + k))
  }

  /** How a codeword reads, bit by bit: nine ones and a raw value of the sample
      size, or up to eight ones, a zero and a tail. A tail of k bits counts from
      one; one that would be 0 or 1 has only k - 1 bits. */
  lemma DecodeValueMeaning(bits: Bits, p: nat, sampleSize: nat, k: nat, maskBits: nat) returns (ones: nat)
    requires 1 <= sampleSize <= 32 && 1 <= k <= 16 && maskBits >= 1
    requires DecodeValue(bits, p, sampleSize, k, maskBits).Some?
    ensures ones <= 9 && p + ones <= |bits| && forall i :: p <= i < p + ones ==> bits[i]
    ensures ones < 9 ==> p + ones < |bits| && !bits[p + ones]
    ensures var c := DecodeValue(bits, p, sampleSize, k, maskBits).value;
      if ones == 9 then
        p + 9 + sampleSize <= |bits| && c.value == Value(bits, p + 9, sampleSize) && c.end == p + 9 + sampleSize
      else if k == 1 then c.value == ones && c.end == p + ones + 1
      else
        && p + ones + 1 + k <= |bits|
        && var tail, scaled := Value(bits, p + ones + 1, k), ones * ((Pow2(k) - 1) % Pow2(maskBits));
           if tail < 2 then c.value == scaled && c.end == p + ones + k
           else c.value == scaled + tail - 1 && c.end == p + ones + 1 + k
  {
    hide Value, Pow2, Multiplier;
    ones := PrefixMeaning(bits, p, 0);
    MultiplierIsMasked(k, maskBits);
  }

  lemma {:induction false} PrefixMeaning(bits: Bits, p: nat, x: nat) returns (ones: nat)
    requires x <= RICE_THRESHOLD + 1 && p <= |bits| && Prefix(bits, p, x).Some?
    ensures x + ones <= 9 && p + ones <= |bits| && (forall i :: p <= i < p + ones ==> bits[i])
    ensures x + ones < 9 ==> p + ones < |bits| && !bits[p + ones]
    ensures Prefix(bits, p, x) == Some(x + ones)
    decreases RICE_THRESHOLD + 1 - x
  {
    if x > RICE_THRESHOLD || !bits[p] {
      ones := 0;
    } else {
      var more := PrefixMeaning(bits, p + 1, x + 1);
      ones := 1 + more;
    }
  }

  /** The codeword for v: q ones, a zero and a tail of k - 1 or k bits, or nine
      ones and the raw value. */
  function Codeword(v: nat, sampleSize: nat, k: nat, maskBits: nat): (bits: Bits)
    requires k >= 1 && maskBits >= 1
  {
    var m := Multiplier(k, maskBits);
    var q, r := v / m, v % m;
    if q > RICE_THRESHOLD then Repeat(true, RICE_THRESHOLD + 1) + Be(v, sampleSize)
    else Repeat(true, q) + [false] + if r == 0 then Be(0, k - 1) else Be(r + 1, k)
  }

  lemma {:induction false} PrefixOfOnes(bits: Bits, p: nat, q: nat, x: nat)
    requires At(bits, p, Repeat(true, q)) && x + q <= RICE_THRESHOLD + 1
    ensures Prefix(bits, p, x) == Prefix(bits, p + q, x + q)
    decreases q
  {
    if q > 0 {
      assert Repeat(true, q) == [true] + Repeat(true, q - 1);
      AtSplit(bits, p, [true], Repeat(true, q - 1));
      assert bits[p] == bits[p..p + 1][0];
      PrefixOfOnes(bits, p + 1, q - 1, x + 1);
    }
  }

  /** Decoding a codeword gives its value and stops exactly behind it. */
  lemma CodewordDecodes(bits: Bits, p: nat, v: nat, sampleSize: nat, k: nat, maskBits: nat, end: nat)
    requires 1 <= sampleSize <= 32 && 1 <= k <= 16 && maskBits >= 1
    requires v < Pow2(sampleSize)
    requires At(bits, p, Codeword(v, sampleSize, k, maskBits))
    requires Padded(bits, end) && p + |Codeword(v, sampleSize, k, maskBits)| <= end
    ensures DecodeValue(bits, p, sampleSize, k, maskBits)
         == Some(Codepoint(v, p + |Codeword(v, sampleSize, k, maskBits)|))
  {
    hide Multiplier, Value, Pow2, Readable, Padded, At, Be, Prefix, Repeat;
    var m := Multiplier(k, maskBits);
    var q, r := v / m, v % m;
    if q > RICE_THRESHOLD {
      EscapeDecodes(bits, p, v, sampleSize, end);
    } else {
      DivisionParts(v, m);
      PrefixThenTail(bits, p, q, if r == 0 then Be(0, k - 1) else Be(r + 1, k));
      if k != 1 {
        TailDecodes(bits, p + q + 1, r, k, end);
      }
    }
  }

  lemma EscapeDecodes(bits: Bits, p: nat, v: nat, sampleSize: nat, end: nat)
    requires 1 <= sampleSize <= 32 && v < Pow2(sampleSize) && Padded(bits, end) && p + 9 + sampleSize <= end
    requires At(bits, p, Repeat(true, RICE_THRESHOLD + 1) + Be(v, sampleSize))
    ensures Prefix(bits, p, 0) == Some(9) && Readable(bits, p + 9, sampleSize) && Value(bits, p + 9, sampleSize) == v
  {
    hide At, Repeat, Pow2;
    AtSplit(bits, p, Repeat(true, 9), Be(v, sampleSize));
    PrefixOfOnes(bits, p, 9, 0);
    ValueOfBe(bits, p + 9, v, sampleSize);
    PaddedReadable(bits, p + 9, sampleSize, end);
  }

  lemma DivisionParts(v: nat, m: nat)
    requires m > 0
    ensures v == v / m * m + v % m && 0 <= v % m < m
    ensures m == 1 ==> v % m == 0 && v / m == v
  {
  }

  lemma PrefixThenTail(bits: Bits, p: nat, q: nat, tail: Bits)
    requires q <= RICE_THRESHOLD && At(bits, p, Repeat(true, q) + [false] + tail)
    ensures Prefix(bits, p, 0) == Some(q) && At(bits, p + q + 1, tail)
  {
    AtSplit(bits, p, Repeat(true, q) + [false], tail);
    AtSplit(bits, p, Repeat(true, q), [false]);
    PrefixOfOnes(bits, p, q, 0);
    assert bits[p + q] == bits[p + q..p + q + 1][0];
  }

  lemma TailDecodes(bits: Bits, p: nat, r: nat, k: nat, end: nat)
    requires 2 <= k <= 16 && r < Pow2(k) - 1
    requires Padded(bits, end)
    requires if r == 0 then At(bits, p, Be(0, k - 1)) && p + k - 1 <= end else At(bits, p, Be(r + 1, k)) && p + k <= end
    ensures Readable(bits, p, k)
    ensures if r == 0 then Value(bits, p, k) <= 1 else Value(bits, p, k) == r + 1
  {
    PaddedReadable(bits, p, k, end);
    if r == 0 {
      ValueOfBe(bits, p, 0, k - 1);
    } else {
      ValueOfBe(bits, p, r + 1, k);
    }
  }

  /** No codeword is the beginning of another one. */
  lemma CodewordsPrefixFree(v: nat, w: nat, s: Bits, t: Bits, sampleSize: nat, k: nat, maskBits: nat)
    requires 1 <= sampleSize <= 32 && 1 <= k <= 16 && maskBits >= 1
    requires v < Pow2(sampleSize) && w < Pow2(sampleSize)
    requires Codeword(v, sampleSize, k, maskBits) + s == Codeword(w, sampleSize, k, maskBits) + t
    ensures v == w && s == t
  {
    hide Codeword, DecodeValue, Pow2;
    var a, b := Codeword(v, sampleSize, k, maskBits), Codeword(w, sampleSize, k, maskBits);
    var n := |a + s|;
    var bits := (a + s) + Repeat(false, 16 + (8 - n % 8));
    assert bits == (b + t) + Repeat(false, 16 + (8 - n % 8));
    assert bits[0..|a|] == a && bits[0..|b|] == b;
    CodewordDecodes(bits, 0, v, sampleSize, k, maskBits, n);
    CodewordDecodes(bits, 0, w, sampleSize, k, maskBits, n);
    assert s == (a + s)[|a|..] && t == (b + t)[|b|..];
  }

  method EntropyDecodeValue(alac: BitReader, readSampleSize: nat, k: nat, maskBits: nat) returns (x: nat)
    requires 1 <= readSampleSize <= 32 && 1 <= k <= 16 && maskBits >= 1
    requires alac.Valid() && DecodeValue(alac.Bits(), alac.P(), readSampleSize, k, maskBits).Some?
    modifies alac`pos, alac`acc
    ensures alac.Valid()
    ensures DecodeValue(alac.Bits(), old(alac.P()), readSampleSize, k, maskBits) == Some(Codepoint(x, alac.P()))
  {
    hide Value, Pow2, BitsOf, Multiplier, Readable;
    ghost var bits, p := alac.Bits(), alac.P();
    x := 0;
    while x <= RICE_THRESHOLD
      invariant alac.Valid() && alac.P() == p + x && x <= RICE_THRESHOLD + 1
      invariant Prefix(bits, p, 0) == Prefix(bits, p + x, x)
    {
      var one := alac.ReadBit();
      if !one { break; }
      x := x + 1;
    }
    if x > RICE_THRESHOLD {
      var value := alac.ReadBits(readSampleSize);
      x := value % Pow2(readSampleSize);
      SmallModulus(value, Pow2(readSampleSize));
    } else if k != 1 {
      var extraBits := alac.ReadBits(k);
      Monotone(0, x, Multiplier(k, maskBits));
      x := x * Multiplier(k, maskBits);
      if extraBits > 1 {
        x := x + extraBits - 1;
      } else {
        alac.UnreadBits(1);
      }
    }
  }

  // ----- The adaptive parameters -----

  function CountLeadingZeros(x: nat): int
  {
    if x == 0 then 32 else CountLeadingZeros(x / 2) - 1
  }

  lemma {:induction false} CountLeadingZerosBrackets(x: nat, n: nat)
    ensures x < Pow2(n) ==> CountLeadingZeros(x) >= 32 - n
    ensures x >= Pow2(n) ==> CountLeadingZeros(x) <= 31 - n
  {
    if x == 0 {
    } else if n == 0 {
      CountLeadingZerosBrackets(x / 2, 0);
    } else {
      CountLeadingZerosBrackets(x / 2, n - 1);
    }
  }

  datatype Params = Params(initialHistory: nat, kModifier: nat, historyMult: nat, sampleSize: nat)

  /** The multiplier bound is what keeps history * historyMult in 32 bits. */
  predicate Legal(prm: Params) {
    && prm.initialHistory <= MAX_HISTORY
    && 1 <= prm.kModifier <= 30
    && prm.historyMult <= 64
    && 1 <= prm.sampleSize <= 24
  }

  predicate HistoryOk(history: int, signModifier: int) {
    0 <= history <= MAX_HISTORY && 0 <= signModifier <= 1
  }

  /** The history is zero only right after a zero run. */
  predicate Live(history: int, signModifier: int) {
    history == 0 ==> signModifier == 1
  }

  /** The parameter k of the next sample. */
  function SampleK(history: nat, kModifier: nat): (k: nat)
    requires history <= MAX_HISTORY && kModifier >= 1
    ensures 1 <= k <= Min(16, kModifier)
  {
    var x := history / 512 + 3;
    Pow2At16();
    assert Pow2(1) == 2;
    CountLeadingZerosBrackets(x, 1);
    CountLeadingZerosBrackets(x, 17);
    var k := 31 - kModifier - CountLeadingZeros(x);
    if k < 0 then k + kModifier else kModifier
  }

  /** What the parameter means: the largest k up to the limit for which 2^k does
      not exceed the scaled history. */
  lemma SampleKIsLogarithm(history: nat, kModifier: nat)
    requires history <= MAX_HISTORY && kModifier >= 1
    ensures var k, x := SampleK(history, kModifier), history / 512 + 3;
      Pow2(k) <= x && (k < kModifier ==> x < Pow2(k + 1))
  {
    hide CountLeadingZeros, Pow2;
    var k, x := SampleK(history, kModifier), history / 512 + 3;
    var log := 31 - CountLeadingZeros(x);
    SampleKIsMin(history, kModifier);
    CountLeadingZerosBrackets(x, log + 1);
    CountLeadingZerosBrackets(x, log);
    Pow2Mono(k, log);
  }

  lemma SampleKIsMin(history: nat, kModifier: nat)
    requires history <= MAX_HISTORY && kModifier >= 1
    ensures SampleK(history, kModifier) == Min(31 - CountLeadingZeros(history / 512 + 3), kModifier)
    ensures 31 - CountLeadingZeros(history / 512 + 3) >= 1
  {
    hide CountLeadingZeros, Pow2;
    assert Pow2(1) == 2 by { PowerOfOne(); }
    CountLeadingZerosBrackets(history / 512 + 3, 1);
  }

  lemma PowerOfOne()
    ensures Pow2(1) == 2
  {
  }

  /** The parameter k of a zero-run length. A history of zero gives 8, with the
      32 leading zeros of the portable count. */
  function RunK(history: nat): (k: nat)
    requires history < 128
    ensures if history == 0 then k == 8 else 2 <= k <= 7
  {
    assert Pow2(0) == 1 && Pow2(5) == 32 && Pow2(6) == 64 && Pow2(7) == 128 by { Pow2At8(); }
    CountLeadingZerosBrackets(history, 0);
    CountLeadingZerosBrackets(history, 5);
    CountLeadingZerosBrackets(history, 6);
    CountLeadingZerosBrackets(history, 7);
    CountLeadingZeros(history) + (history + 16) / 64 - 24
  }

  /** What the run parameter means: 8 less the length of the history in bits,
      and one more from 48, two more from 112 on. */
  lemma RunKMeaning(history: nat, length: nat)
    requires 1 <= history < 128 && 1 <= length <= 7 && Pow2(length - 1) <= history < Pow2(length)
    ensures RunK(history) == 8 - length + (if history < 48 then 0 else if history < 112 then 1 else 2)
  {
    hide CountLeadingZeros, Pow2;
    CountLeadingZerosBrackets(history, length);
    CountLeadingZerosBrackets(history, length - 1);
  }

  function NextHistory(history: int, decoded: int, historyMult: int): int {
    if decoded > 0xFFFF then 0xFFFF
    else history + decoded * historyMult - (history * historyMult) / 512
  }

  /** The history is a moving average: of the old history and 512 times the
      decoded value, weighted 512 - m to m, in 512ths rounded up. A value beyond
      16 bits sets it to 0xFFFF. */
  predicate Averages(next: int, history: int, decoded: int, m: int) {
    if decoded > 0xFFFF then next == 0xFFFF
    else 0 <= 512 * next - ((512 - m) * history + 512 * m * decoded) < 512
  }

  lemma HistoryAverages(history: int, decoded: int, m: int)
    ensures Averages(NextHistory(history, decoded, m), history, decoded, m)
  {
    var decay := history * m;
    assert 0 <= decay - 512 * (decay / 512) < 512;
    assert 512 * (decoded * m) == 512 * m * decoded && (512 - m) * history == 512 * history - decay;
  }

  /** No other value is that average. */
  lemma AverageIsUnique(x: int, y: int, history: int, decoded: int, m: int)
    requires Averages(x, history, decoded, m) && Averages(y, history, decoded, m)
    ensures x == y
  {
    var a := (512 - m) * history + 512 * m * decoded;
    assert decoded <= 0xFFFF ==> 0 <= 512 * x - a < 512 && 0 <= 512 * y - a < 512;
  }

  /** One sample keeps the history bounded and, with a multiplier, positive; no
      intermediate product or sum of the update leaves 32 bits. */
  lemma HistoryStep(history: int, signModifier: int, value: int, m: int)
    requires HistoryOk(history, signModifier) && 0 <= m <= 64
    requires 0 <= value < 0x100_0000
    ensures 0 <= NextHistory(history, value + signModifier, m) <= MAX_HISTORY
    ensures m >= 1 && Live(history, signModifier) ==> NextHistory(history, value + signModifier, m) >= 1
    ensures 0 <= history * m < 0x8000_0000
    ensures 0 <= (value + signModifier) * m <= 0x4000_0000
    ensures -0x8000_0000 <= history + ((value + signModifier) * m - history * m / 512) < 0x8000_0000
  {
    var d := value + signModifier;
    DecayBounds(history, m);
    Monotone(d, 0x100_0000, m);
    Monotone(0, d, m);
    if d <= 0xFFFF {
      Monotone(d, 0xFFFF, m);
    }
    if d >= 1 {
      Monotone(1, d, m);
    }
  }

  /** The share of the history that one update takes away. */
  lemma DecayBounds(history: int, m: int)
    requires 0 <= history <= MAX_HISTORY && 0 <= m <= 64
    ensures 0 <= history * m <= MAX_HISTORY * 64
    ensures 0 <= history * m / 512 <= history
    ensures history > 0 ==> history * m / 512 < history
    ensures history - history * m / 512 <= MAX_HISTORY - 0xFFFF * m
  {
    var gap := MAX_HISTORY - history;
    Monotone(m, 64, history);
    Monotone(m, 64, gap);
    assert history * m == 512 * (0xFFFF * m) - gap * m;
  }

  lemma Monotone(a: int, b: int, c: int)
    requires a <= b && c >= 0
    ensures a * c <= b * c && c * a <= c * b
  {
  }

  lemma DecodeValueBound(bits: Bits, p: nat, sampleSize: nat, k: nat, maskBits: nat)
    requires 1 <= sampleSize <= 24 && 1 <= k <= 16 && maskBits >= 1
    ensures var r := DecodeValue(bits, p, sampleSize, k, maskBits);
            r.Some? ==> r.value.value < 0x100_0000 && (sampleSize <= 16 && k <= 8 ==> r.value.value <= 0xFFFF)
  {
    var r := DecodeValue(bits, p, sampleSize, k, maskBits);
    if r.Some? {
      var x := Prefix(bits, p, 0).value;
      Pow2At32();
      Pow2At16();
      Pow2At8();
      if x > RICE_THRESHOLD {
        ValueBound(bits, p + x, sampleSize);
        Pow2Mono(sampleSize, 24);
        Pow2Mono(sampleSize, if sampleSize <= 16 then 16 else 24);
      } else if k != 1 {
        ValueBound(bits, p + x + 1, k);
        Pow2Mono(k, if k <= 8 then 8 else 16);
        var m := Multiplier(k, maskBits);
        assert x * m <= 8 * m;
      }
    }
  }

  // ----- The stream -----

  function Fold(v: int): nat {
    if v >= 0 then 2 * v else -2 * v - 1
  }

  function Unfold(d: nat): int {
    if d % 2 == 1 then -((d + 1) / 2) else (d + 1) / 2
  }

  datatype Decoded = Decoded(values: seq<int>, end: nat)

  function Zeros(n: nat): (s: seq<int>)
    ensures |s| == n
  {
    seq(n, _ => 0)
  }

  function Prepend(s: seq<int>, r: Option<Decoded>): Option<Decoded> {
    match r
    case None => None
    case Some(d) => Some(Decoded(s + d.values, d.end))
  }

  /** One round of the decoder: a sample, the zeros that follow it, and the
      state for the next round. */
  datatype Round = Round(value: int, zeros: nat, end: nat, history: int, signModifier: int)

  function DecodeRound(bits: Bits, p: nat, history: int, signModifier: int, last: bool, prm: Params): (r: Option<Round>)
    requires Legal(prm) && HistoryOk(history, signModifier)
    ensures r.Some? ==> HistoryOk(r.value.history, r.value.signModifier)
    ensures r.Some? && prm.historyMult >= 1 && Live(history, signModifier)
        ==> Live(r.value.history, r.value.signModifier)
  {
    var k := SampleK(history, prm.kModifier);
    DecodeValueBound(bits, p, prm.sampleSize, k, 32);
    match DecodeValue(bits, p, prm.sampleSize, k, 32)
    case None => None
    case Some(c) =>
      HistoryStep(history, signModifier, c.value, prm.historyMult);
      var d := c.value + signModifier;
      var history' := NextHistory(history, d, prm.historyMult);
      if history' < 128 && !last then
        match DecodeValue(bits, c.end, 16, RunK(history'), prm.kModifier)
        case None => None
        case Some(run) => Some(Round(Unfold(d), run.value, run.end, 0, 1))
      else Some(Round(Unfold(d), 0, c.end, history', 0))
  }

  /** What a round does: `next` is the new average, the value's low bit is its
      sign, and a run of zeros follows exactly when the average is below 128 and
      there are samples to come. The sample is read without a mask, the run in
      16 bits with the mask of the k modifier. */
  lemma RoundMeaning(bits: Bits, p: nat, history: int, signModifier: int, last: bool, prm: Params) returns (next: int)
    requires Legal(prm) && HistoryOk(history, signModifier)
    requires DecodeRound(bits, p, history, signModifier, last, prm).Some?
    ensures DecodeValue(bits, p, prm.sampleSize, SampleK(history, prm.kModifier), 32).Some?
    ensures var r := DecodeRound(bits, p, history, signModifier, last, prm).value;
      var c := DecodeValue(bits, p, prm.sampleSize, SampleK(history, prm.kModifier), 32).value;
      var d := c.value + signModifier;
      && Averages(next, history, d, prm.historyMult) && next >= 0
      && 2 * r.value == (if d % 2 == 0 then d else -(d + 1))
      && if next < 128 && !last then
           && r.history == 0 && r.signModifier == 1
           && DecodeValue(bits, c.end, 16, RunK(next), prm.kModifier) == Some(Codepoint(r.zeros, r.end))
         else r.history == next && r.signModifier == 0 && r.zeros == 0 && r.end == c.end
  {
    hide DecodeValue, SampleK, RunK, NextHistory, Averages;
    var c := DecodeValue(bits, p, prm.sampleSize, SampleK(history, prm.kModifier), 32).value;
    next := NextHistory(history, c.value + signModifier, prm.historyMult);
    DecodeValueBound(bits, p, prm.sampleSize, SampleK(history, prm.kModifier), 32);
    HistoryStep(history, signModifier, c.value, prm.historyMult);
    HistoryAverages(history, c.value + signModifier, prm.historyMult);
    UnfoldMeaning(c.value + signModifier);
  }

  lemma UnfoldMeaning(d: nat)
    ensures 2 * Unfold(d) == if d % 2 == 0 then d else -(d + 1)
  {
  }

  /** What entropy_rice_decode makes of the bits at p when n samples are still
      to come. None: the stream reads outside its buffer, or a zero run
      goes past the end of the frame. */
  function RiceDecode(bits: Bits, p: nat, history: int, signModifier: int, n: nat, prm: Params): Option<Decoded>
    requires Legal(prm) && HistoryOk(history, signModifier)
    decreases n
  {
    if n == 0 then Some(Decoded([], p))
    else
      match DecodeRound(bits, p, history, signModifier, n == 1, prm)
      case None => None
      case Some(r) =>
        if r.zeros > n - 1 then None
        else Prepend([r.value] + Zeros(r.zeros),
                     RiceDecode(bits, r.end, r.history, r.signModifier, n - 1 - r.zeros, prm))
  }

  function LeadingZeros(vs: seq<int>): (n: nat)
    ensures n <= |vs|
    ensures vs[..n] == Zeros(n)
    ensures n < |vs| ==> vs[n] != 0
  {
    if vs == [] || vs[0] != 0 then 0
    else
      var n := 1 + LeadingZeros(vs[1..]);
      assert vs[..n] == [0] + vs[1..][..n - 1];
      n
  }

  predicate Encodable(vs: seq<int>, signModifier: int, sampleSize: nat)
    requires sampleSize >= 1
  {
    && |vs| <= 0xFFFF
    && (forall i :: 0 <= i < |vs| ==> Signed(vs[i], sampleSize))
    && (signModifier == 1 && vs != [] ==> vs[0] != 0)
  }

  datatype Encoded = Encoded(word: Bits, zeros: nat, history: int, signModifier: int)

  function EncodeRound(vs: seq<int>, history: int, signModifier: int, prm: Params): (r: Encoded)
    requires Legal(prm) && HistoryOk(history, signModifier)
    requires vs != [] && Encodable(vs, signModifier, prm.sampleSize)
    ensures HistoryOk(r.history, r.signModifier)
    ensures r.zeros <= |vs| - 1 && vs == [vs[0]] + Zeros(r.zeros) + vs[1 + r.zeros..]
    ensures Encodable(vs[1 + r.zeros..], r.signModifier, prm.sampleSize)
  {
    FoldBound(vs[0], prm.sampleSize);
    var d := Fold(vs[0]);
    var word := Codeword(d - signModifier, prm.sampleSize, SampleK(history, prm.kModifier), 32);
    HistoryStep(history, signModifier, d - signModifier, prm.historyMult);
    var history' := NextHistory(history, d, prm.historyMult);
    if history' < 128 && |vs| > 1 then
      var run := LeadingZeros(vs[1..]);
      assert vs == [vs[0]] + vs[1..][..run] + vs[1 + run..];
      Encoded(word + Codeword(run, 16, RunK(history'), prm.kModifier), run, 0, 1)
    else Encoded(word, 0, history', 0)
  }

  /** The reference encoder: maximal zero runs, one less than the folded value
      right after a run. */
  function RiceEncode(vs: seq<int>, history: int, signModifier: int, prm: Params): Bits
    requires Legal(prm) && HistoryOk(history, signModifier)
    requires Encodable(vs, signModifier, prm.sampleSize)
    decreases |vs|
  {
    if vs == [] then []
    else
      var r := EncodeRound(vs, history, signModifier, prm);
      r.word + RiceEncode(vs[1 + r.zeros..], r.history, r.signModifier, prm)
  }

  lemma FoldBound(v: int, n: nat)
    requires 1 <= n <= 24 && Signed(v, n)
    ensures Fold(v) < Pow2(n) <= 0x100_0000
    ensures Unfold(Fold(v)) == v
  {
    FoldUnfold(v);
    Pow2Mono(n, 24);
    Pow2At32();
    HalfPow2(n);
  }

  lemma HalfPow2(n: nat)
    requires n >= 1
    ensures Pow2(n) == 2 * Pow2(n - 1)
  {
  }

  lemma FoldUnfold(v: int)
    ensures Unfold(Fold(v)) == v
  {
    if v >= 0 {
      assert Fold(v) == v * 2;
    } else {
      var u := -v - 1;
      assert Fold(v) == u * 2 + 1;
    }
  }

  function RoundOf(v: int, p: nat, r: Encoded): Round {
    Round(v, r.zeros, p + |r.word|, r.history, r.signModifier)
  }

  lemma RoundRoundTrip(bits: Bits, p: nat, vs: seq<int>, history: int, signModifier: int, prm: Params, end: nat)
    requires Legal(prm) && HistoryOk(history, signModifier)
    requires vs != [] && Encodable(vs, signModifier, prm.sampleSize)
    requires At(bits, p, EncodeRound(vs, history, signModifier, prm).word)
    requires Padded(bits, end) && p + |EncodeRound(vs, history, signModifier, prm).word| <= end
    ensures DecodeRound(bits, p, history, signModifier, |vs| == 1, prm)
         == Some(RoundOf(vs[0], p, EncodeRound(vs, history, signModifier, prm)))
  {
    hide Codeword, DecodeValue, SampleK, RunK, NextHistory, Pow2, At, Signed, Unfold;
    var r := EncodeRound(vs, history, signModifier, prm);
    FoldBound(vs[0], prm.sampleSize);
    var d := Fold(vs[0]);
    var k := SampleK(history, prm.kModifier);
    var word := Codeword(d - signModifier, prm.sampleSize, k, 32);
    HistoryStep(history, signModifier, d - signModifier, prm.historyMult);
    var history' := NextHistory(history, d, prm.historyMult);
    if history' < 128 && |vs| > 1 {
      var word2 := Codeword(r.zeros, 16, RunK(history'), prm.kModifier);
      AtSplit(bits, p, word, word2);
      CodewordDecodes(bits, p, d - signModifier, prm.sampleSize, k, 32, end);
      Pow2At16();
      CodewordDecodes(bits, p + |word|, r.zeros, 16, RunK(history'), prm.kModifier, end);
    } else {
      CodewordDecodes(bits, p, d - signModifier, prm.sampleSize, k, 32, end);
    }
  }

  /** Decoding the encoder's bits gives the values back, whatever the adaptive
      state it starts in, and ends exactly at their end. */
  lemma {:induction false} RiceRoundTrip(bits: Bits, p: nat, vs: seq<int>, history: int, signModifier: int,
                                         prm: Params, end: nat)
    requires Legal(prm) && HistoryOk(history, signModifier)
    requires Encodable(vs, signModifier, prm.sampleSize)
    requires At(bits, p, RiceEncode(vs, history, signModifier, prm))
    requires Padded(bits, end) && p + |RiceEncode(vs, history, signModifier, prm)| <= end
    ensures RiceDecode(bits, p, history, signModifier, |vs|, prm)
         == Some(Decoded(vs, p + |RiceEncode(vs, history, signModifier, prm)|))
    decreases |vs|
  {
    hide EncodeRound, DecodeRound, At, Padded, Encodable;
    if vs != [] {
      var r := EncodeRound(vs, history, signModifier, prm);
      var rest := vs[1 + r.zeros..];
      AtSplit(bits, p, r.word, RiceEncode(rest, r.history, r.signModifier, prm));
      RoundRoundTrip(bits, p, vs, history, signModifier, prm, end);
      RiceRoundTrip(bits, p + |r.word|, rest, r.history, r.signModifier, prm, end);
    }
  }

  method EntropyRiceDecode(alac: BitReader, output: array<int>, outputSize: nat, prm: Params)
    requires Legal(prm) && outputSize <= output.Length
    requires alac.Valid() && RiceDecode(alac.Bits(), alac.P(), prm.initialHistory, 0, outputSize, prm).Some?
    modifies alac`pos, alac`acc, output
    ensures alac.Valid()
    ensures RiceDecode(alac.Bits(), old(alac.P()), prm.initialHistory, 0, outputSize, prm)
         == Some(Decoded(output[..outputSize], alac.P()))
    ensures forall j :: outputSize <= j < output.Length ==> output[j] == old(output[j])
  {
    hide DecodeValue, SampleK, RunK, NextHistory, Unfold, BitsOf;
    ghost var bits := alac.Bits();
    ghost var all := RiceDecode(bits, alac.P(), prm.initialHistory, 0, outputSize, prm);
    var history := prm.initialHistory;
    var signModifier: int := 0;
    var count := 0;
    assert [] + all.value.values == all.value.values;
    while count < outputSize
      invariant count <= outputSize && alac.Valid() && HistoryOk(history, signModifier)
      invariant all.Some?
      invariant all == Prepend(output[..count],
                               RiceDecode(bits, alac.P(), history, signModifier, outputSize - count, prm))
      invariant forall j :: outputSize <= j < output.Length ==> output[j] == old(output[j])
    {
      ghost var done, start := output[..count], count;
      ghost var round := DecodeRound(bits, alac.P(), history, signModifier, outputSize - count == 1, prm);
      DecodeValueBound(bits, alac.P(), prm.sampleSize, SampleK(history, prm.kModifier), 32);
      var k := SampleK(history, prm.kModifier);
      var decoded := EntropyDecodeValue(alac, prm.sampleSize, k, 32);
      HistoryStep(history, signModifier, decoded, prm.historyMult);
      decoded := decoded + signModifier;
      output[count] := Unfold(decoded);
      history, signModifier := NextHistory(history, decoded, prm.historyMult), 0;
      if history < 128 && count + 1 < outputSize {
        signModifier := 1;
        DecodeValueBound(bits, alac.P(), 16, RunK(history), prm.kModifier);
        var blockSize := EntropyDecodeValue(alac, 16, RunK(history), prm.kModifier);
        forall j | count + 1 <= j < count + 1 + blockSize {
          output[j] := 0;
        }
        if blockSize > 0xFFFF {
          signModifier := 0;
        }
        history := 0;
        count := count + blockSize;
      }
      count := count + 1;
      assert output[..count] == done + ([round.value.value] + Zeros(round.value.zeros));
      PrependTwice(done, [round.value.value] + Zeros(round.value.zeros),
                   RiceDecode(bits, alac.P(), history, signModifier, outputSize - count, prm));
    }
    assert output[..outputSize] + [] == output[..outputSize];
  }

  lemma PrependTwice(s: seq<int>, t: seq<int>, r: Option<Decoded>)
    ensures Prepend(s, Prepend(t, r)) == Prepend(s + t, r)
  {
    if r.Some? {
      assert s + (t + r.value.values) == s + t + r.value.values;
    }
  }
}
