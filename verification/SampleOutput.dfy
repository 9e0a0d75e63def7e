/** Volume, dither and sample stuffing (player.c): what is done to a decoded
    frame before it is played. */
module SampleOutput {
  import opened Arith

  const UNITY := 0x1_0000
  const LCG_RANGE := 0x1_0000_0000_0000_0000

  // ----- Dither -----

  /** The static state of lcg_rand and dithered_vol. */
  datatype Dither = Dither(lcg: nat, randA: int16, randB: int16)

  function Next(d: Dither): Dither {
    var lcg := (d.lcg * 69069 + 3) % LCG_RANGE;
    Dither(lcg, Wrap16(lcg % 0x1_0000), d.randA)
  }

  function NextIf(d: Dither, volume: int): Dither {
    if volume < UNITY then Next(d) else d
  }

  /** The noise of one sample: the new random number less the one before. */
  function Noise(d: Dither, volume: int): int {
    if volume < UNITY then NextIf(d, volume).randA as int - NextIf(d, volume).randB else 0
  }

  /** The scaled sample before the conversion to 16 bits. */
  function Scaled(sample: int16, volume: int, noise: int): int {
    (sample as int * volume + noise) / UNITY
  }

  function Dithered(sample: int16, volume: int, d: Dither): int16 {
    Wrap16(Scaled(sample, volume, Noise(d, volume)))
  }

  /** The dither state after n samples. */
  function After(n: nat, volume: int, d: Dither): Dither {
    if n == 0 then d else NextIf(After(n - 1, volume, d), volume)
  }

  function DitherAll(samples: seq<int16>, volume: int, d: Dither): (outs: seq<int16>)
    ensures |outs| == |samples|
  {
    seq(|samples|, i requires 0 <= i < |samples| => Dithered(samples[i], volume, After(i, volume, d)))
  }

  lemma NoiseBound(d: Dither, volume: int)
    ensures -0xFFFF <= Noise(d, volume) <= 0xFFFF
  {
  }

  /** The noise moves the scaled sample by at most one. */
  lemma ScaledWithinOne(sample: int16, volume: int, noise: int)
    requires 0 <= volume < UNITY && -0xFFFF <= noise <= 0xFFFF
    ensures -1 <= Scaled(sample, volume, noise) - Scaled(sample, volume, 0) <= 1
  {
    var x := sample as int * volume;
    assert (x - UNITY) / UNITY == x / UNITY - 1 && (x + UNITY) / UNITY == x / UNITY + 1;
  }

  /** The conversion to 16 bits is exact but for one case: the lowest sample at
      the highest volume below unity, with noise under -0x8000. */
  lemma DitherWraps(sample: int16, volume: int, noise: int)
    requires 0 <= volume < UNITY && -0xFFFF <= noise <= 0xFFFF
    ensures Wrap16(Scaled(sample, volume, noise)) != Scaled(sample, volume, noise)
            <==> sample == -0x8000 && volume == 0xFFFF && noise < -0x8000
  {
    var x := sample as int * volume;
    ProductBounds(sample, volume);
    Wrap16Exact(Scaled(sample, volume, noise));
  }

  /** The one case in which the conversion wraps. */
  predicate Wraps(sample: int16, volume: int, d: Dither) {
    sample == -0x8000 && volume == 0xFFFF && Noise(d, volume) < -0x8000
  }

  /** Below unity a sample comes out within one of its undithered value, unless
      it wraps; then the lowest value becomes the highest. */
  lemma DitherWithinOne(sample: int16, volume: int, d: Dither)
    requires 0 <= volume < UNITY
    ensures -1 <= Dithered(sample, volume, d) - Scaled(sample, volume, 0) <= 1 <==> !Wraps(sample, volume, d)
    ensures Wraps(sample, volume, d) ==> Dithered(sample, volume, d) == 0x7FFF
  {
    hide Noise, Scaled, Wrap16;
    var noise := Noise(d, volume);
    NoiseBound(d, volume);
    ScaledWithinOne(sample, volume, noise);
    DitherWraps(sample, volume, noise);
    if Wraps(sample, volume, d) {
      LowestWraps(noise);
    }
  }

  lemma LowestWraps(noise: int)
    requires -0xFFFF <= noise < -0x8000
    ensures Scaled(-0x8000, 0xFFFF, 0) == -0x8000 && Wrap16(Scaled(-0x8000, 0xFFFF, noise)) == 0x7FFF
  {
    Pow2At16();
  }

  /** What comes out, exactly: the sample times the volume plus the new random
      number less the last one, over 2^16 rounded down. */
  lemma DitheredMeaning(sample: int16, volume: int, d: Dither)
    requires 0 <= volume <= UNITY && !Wraps(sample, volume, d)
    ensures var noise := if volume < 0x1_0000 then Next(d).randA as int - d.randA else 0;
      0 <= sample as int * volume + noise - 0x1_0000 * Dithered(sample, volume, d) < 0x1_0000
  {
    hide Wrap16;
    var noise := if volume < 0x1_0000 then Next(d).randA as int - d.randA else 0;
    var v := sample as int * volume + noise;
    assert Noise(d, volume) == noise;
    FloorOf(v, UNITY);
    if volume < UNITY {
      NoiseBound(d, volume);
      DitherWraps(sample, volume, noise);
    } else {
      DivMod(sample, UNITY, 0);
      Wrap16Exact(sample);
    }
  }

  /** The random numbers: a 64-bit linear congruential generator, of which the
      low 16 bits are taken as a signed number. */
  lemma NextMeaning(d: Dither)
    ensures Next(d).lcg == (69069 * d.lcg + 3) % 0x1_0000_0000_0000_0000 && Next(d).randB == d.randA
    ensures (Next(d).lcg - Next(d).randA) % 0x1_0000 == 0
  {
    hide Wrap16;
    LowBits(Next(d).lcg);
  }

  lemma LowBits(v: nat)
    ensures (v - Wrap16(v % 0x1_0000)) % 0x1_0000 == 0
  {
    hide SignExt;
    Pow2At16();
    var k := Carry(v % 0x1_0000, 16);
    DivMod(v / 0x1_0000 - k, 0x1_0000, 0);
  }

  /** The same for every sample of a frame. */
  lemma FrameWithinOne(samples: seq<int16>, volume: int, d: Dither)
    requires 0 <= volume < UNITY
    ensures forall i :: 0 <= i < |samples| ==>
      (-1 <= DitherAll(samples, volume, d)[i] - Scaled(samples[i], volume, 0) <= 1
       <==> !Wraps(samples[i], volume, After(i, volume, d)))
  {
    hide Dithered, Scaled, Wraps, After;
    forall i | 0 <= i < |samples|
      ensures -1 <= Dithered(samples[i], volume, After(i, volume, d)) - Scaled(samples[i], volume, 0) <= 1
              <==> !Wraps(samples[i], volume, After(i, volume, d))
    {
      DitherWithinOne(samples[i], volume, After(i, volume, d));
    }
  }

  const FIRST_DITHER := Dither(12345, 0, 0)

  /** The wrapping case is real: with the dither state the program starts in,
      the third sample of this frame comes out as the highest value. */
  lemma WrapIsReached()
    ensures Wraps(-0x8000, 0xFFFF, After(2, 0xFFFF, FIRST_DITHER))
    ensures DitherAll([0, 0, -0x8000], 0xFFFF, FIRST_DITHER)[2] == 0x7FFF
  {
    hide Wrap16, Dithered;
    Pow2At16();
    var d1 := AfterFirst();
    var d2 := Dither(58892153071755, 10379, -32088);
    NextIs(d1, d2);
    NextIs(d2, Dither(4067622120513046098, -31150, 10379));
    assert After(1, 0xFFFF, FIRST_DITHER) == d1;
    assert After(2, 0xFFFF, FIRST_DITHER) == d2;
    DitherWithinOne(-0x8000, 0xFFFF, d2);
  }

  lemma AfterFirst() returns (d: Dither)
    ensures d == Dither(852656808, -32088, 0) == Next(FIRST_DITHER)
  {
    d := Dither(852656808, -32088, 0);
    NextIs(FIRST_DITHER, d);
  }

  lemma NextIs(d: Dither, e: Dither)
    requires e.lcg == (d.lcg * 69069 + 3) % LCG_RANGE && e.randB == d.randA
    requires e.randA as int == if e.lcg % 0x1_0000 < 0x8000 then e.lcg % 0x1_0000 else e.lcg % 0x1_0000 - 0x1_0000
    ensures Next(d) == e
  {
    Pow2At16();
  }

  lemma ProductBounds(sample: int16, volume: int)
    requires 0 <= volume < UNITY
    ensures -0x8000 * 0xFFFF <= sample as int * volume <= 0x7FFF * 0xFFFF
    ensures sample as int * volume < -0x8000 * 0xFFFE <==> sample == -0x8000 && volume == 0xFFFF
    ensures sample == -0x8000 && volume == 0xFFFF ==> sample as int * volume == -0x8000 * 0xFFFF
  {
    if sample >= 0 {
      MulMono(sample, 0x7FFF, volume, 0xFFFF);
    } else {
      var m := -(sample as int);
      assert sample as int * volume == -(m * volume);
      MulMono(m, 0x8000, volume, 0xFFFF);
      if volume < 0xFFFF {
        MulMono(m, 0x8000, volume, 0xFFFE);
      } else if m < 0x8000 {
        MulMono(m, 0x7FFF, volume, 0xFFFF);
      }
    }
  }

  lemma MulMono(a: nat, b: nat, c: nat, d: nat)
    requires a <= b && c <= d
    ensures 0 <= a * c <= b * d
  {
    assert a * c <= b * c <= b * d;
  }

  lemma Wrap16Exact(v: int)
    requires -0x8001 <= v <= 0x8000
    ensures Wrap16(v) == v <==> -0x8000 <= v < 0x8000
  {
    Pow2At16();
  }

  function NoiseSum(n: nat, volume: int, d: Dither): int {
    if n == 0 then 0 else NoiseSum(n - 1, volume, d) + Noise(After(n - 1, volume, d), volume)
  }

  /** The noise telescopes: over any run it adds up to less than one step of
      the output, so that dither never shifts the level. */
  lemma {:induction false} NoiseTelescopes(n: nat, volume: int, d: Dither)
    ensures volume < UNITY ==> NoiseSum(n, volume, d) == After(n, volume, d).randA as int - d.randA
    ensures -0xFFFF <= NoiseSum(n, volume, d) <= 0xFFFF
  {
    hide Next;
    if n != 0 {
      NoiseTelescopes(n - 1, volume, d);
      PreviousIsB(After(n - 1, volume, d));
    }
    if volume >= UNITY {
      NoNoise(n, volume, d);
    }
  }

  lemma PreviousIsB(d: Dither)
    ensures Next(d).randB == d.randA
  {
  }

  lemma {:induction false} NoNoise(n: nat, volume: int, d: Dither)
    requires volume >= UNITY
    ensures NoiseSum(n, volume, d) == 0 && After(n, volume, d) == d
  {
    if n != 0 {
      NoNoise(n - 1, volume, d);
    }
  }

  // ----- Stuffing -----

  /** The midpoint of two samples, rounded down. */
  function Midpoint(a: int16, b: int16): int16 {
    (a as int + b) / 2
  }

  /** An interleaved stereo frame with the midpoint of its neighbours inserted
      before stereo sample s, or with stereo sample s removed. */
  function Stuffed(frame: seq<int16>, s: nat, stuff: int): seq<int16>
    requires -1 <= stuff <= 1 && stuff != 0 ==> 2 * s + 1 < |frame|
    requires stuff == 1 ==> s >= 1
  {
    if stuff == 1 then
      frame[..2 * s]
      + [Midpoint(frame[2 * s - 2], frame[2 * s]), Midpoint(frame[2 * s - 1], frame[2 * s + 1])]
      + frame[2 * s..]
    else if stuff == -1 then frame[..2 * s] + frame[2 * s + 2..]
    else frame
  }

  /** Stuffing adds or removes one stereo sample and keeps the channels apart:
      the inserted sample lies between its neighbours, and removing it again
      gives the frame back. */
  lemma StuffedMeaning(frame: seq<int16>, s: nat)
    requires 1 <= s && 2 * s + 1 < |frame| && |frame| % 2 == 0
    ensures |Stuffed(frame, s, 1)| == |frame| + 2 && |Stuffed(frame, s, -1)| == |frame| - 2
    ensures Stuffed(Stuffed(frame, s, 1), s, -1) == frame
    ensures IsMidpoint(Stuffed(frame, s, 1)[2 * s], frame[2 * s - 2], frame[2 * s])
    ensures IsMidpoint(Stuffed(frame, s, 1)[2 * s + 1], frame[2 * s - 1], frame[2 * s + 1])
    ensures Between(Stuffed(frame, s, 1)[2 * s], frame[2 * s - 2], frame[2 * s])
    ensures Between(Stuffed(frame, s, 1)[2 * s + 1], frame[2 * s - 1], frame[2 * s + 1])
  {
    hide Midpoint;
    var longer := Stuffed(frame, s, 1);
    MidpointMeaning(frame[2 * s - 2], frame[2 * s]);
    MidpointMeaning(frame[2 * s - 1], frame[2 * s + 1]);
    assert longer[..2 * s] == frame[..2 * s] && longer[2 * s + 2..] == frame[2 * s..];
  }

  lemma MidpointMeaning(a: int16, b: int16)
    ensures IsMidpoint(Midpoint(a, b), a, b) && Between(Midpoint(a, b), a, b)
  {
  }

  /** The other samples stay, in order. */
  lemma StuffedAt(frame: seq<int16>, s: nat, i: nat)
    requires 1 <= s && 2 * s + 1 < |frame| && |frame| % 2 == 0
    ensures i < |frame| - 2 ==>
      i < |Stuffed(frame, s, -1)| && Stuffed(frame, s, -1)[i] == frame[if i < 2 * s then i else i + 2]
    ensures i < |frame| + 2 && i != 2 * s && i != 2 * s + 1 ==>
      i < |Stuffed(frame, s, 1)| && Stuffed(frame, s, 1)[i] == frame[if i < 2 * s then i else i - 2]
  {
    hide Midpoint;
  }

  /** Halfway, rounded down. */
  predicate IsMidpoint(m: int, a: int, b: int) {
    2 * m <= a + b < 2 * m + 2
  }

  predicate Between(x: int, a: int, b: int) {
    Min(a, b) <= x <= Max(a, b)
  }

  /** What an insertion writes, up to what it returns. */
  lemma InsertedPrefix(source: seq<int16>, s: nat, n: nat)
    requires 1 <= s < n - 1 && 2 * n + 2 <= |source|
    ensures (source[..2 * s]
             + [Midpoint(source[2 * s - 2], source[2 * s]), Midpoint(source[2 * s - 1], source[2 * s + 1])]
             + source[2 * s..2 * n + 2])[..2 * n + 2]
         == Stuffed(source[..2 * n], s, 1)
  {
    hide Midpoint;
  }

  lemma RemovedParts(source: seq<int16>, s: nat, n: nat)
    requires s < n - 1 && 2 * n <= |source|
    ensures source[..2 * s] + source[2 * s + 2..2 * n] == Stuffed(source[..2 * n], s, -1)
  {
  }

  lemma NotStuffed(frame: seq<int16>, s: nat)
    ensures Stuffed(frame, s, 0) == frame
  {
  }

  /** At unity volume samples pass unchanged. */
  lemma UnityIsExact(samples: seq<int16>, d: Dither)
    ensures DitherAll(samples, UNITY, d) == samples
  {
    forall i | 0 <= i < |samples|
      ensures Dithered(samples[i], UNITY, After(i, UNITY, d)) == samples[i]
    {
      Wrap16Exact(samples[i]);
      DivMod(samples[i], UNITY, 0);
    }
  }

  lemma DitherSnoc(done: seq<int16>, left: int16, right: int16, volume: int, d: Dither)
    ensures DitherAll(done + [left, right], volume, d)
         == DitherAll(done, volume, d) + [Dithered(left, volume, After(|done|, volume, d)),
                                          Dithered(right, volume, After(|done| + 1, volume, d))]
  {
    hide Dithered, After;
  }

  lemma NothingDithered(volume: int, d: Dither)
    ensures DitherAll([], volume, d) == [] && After(0, volume, d) == d
  {
  }

  lemma DitherPrefix(samples: seq<int16>, n: nat, volume: int, d: Dither)
    requires n <= |samples|
    ensures DitherAll(samples, volume, d)[..n] == DitherAll(samples[..n], volume, d)
  {
    hide Dithered, After;
  }

  class Output {
    var fixVolume: int
    var dither: Dither
    const frameSize: nat

    constructor (frameSize: nat)
      ensures fixVolume == UNITY && dither == FIRST_DITHER && this.frameSize == frameSize
    {
      this.frameSize := frameSize;
      fixVolume, dither := UNITY, FIRST_DITHER;
    }

    method DitheredVol(sample: int16) returns (r: int16)
      modifies `dither
      ensures r == Dithered(sample, fixVolume, old(dither)) && dither == NextIf(old(dither), fixVolume)
    {
      var out := sample as int * fixVolume;
      if fixVolume < UNITY {
        dither := Next(dither);
        out := out + dither.randA;
        out := out - dither.randB;
      }
      r := Wrap16(out / UNITY);
    }

    /** One stereo sample from in[p], in[p + 1] to out[o], out[o + 1]; `done` is what has been output so far. */
    method CopyStereo(left: int16, right: int16, out: array<int16>, o: nat, ghost done: seq<int16>, ghost start: Dither)
      requires |done| == o && o + 2 <= out.Length
      requires out[..o] == DitherAll(done, fixVolume, start) && dither == After(o, fixVolume, start)
      modifies `dither, out
      ensures out[..o + 2] == DitherAll(done + [left, right], fixVolume, start)
          && dither == After(o + 2, fixVolume, start)
    {
      hide Dithered, NextIf;
      var l := DitheredVol(left);
      var r := DitheredVol(right);
      out[o], out[o + 1] := l, r;
      assert out[..o + 2] == out[..o] + [l, r];
      assert After(o + 1, fixVolume, start) == NextIf(After(o, fixVolume, start), fixVolume);
      assert out[..o] == DitherAll(done, fixVolume, start);
      DitherSnoc(done, left, right, fixVolume, start);
    }

    /** The copying loop: count stereo samples from input[p] on, to output[o] on. */
    method CopyRun(input: array<int16>, p: nat, count: nat, output: array<int16>, o: nat, ghost done: seq<int16>,
                   ghost start: Dither)
      requires input != output && p + 2 * count <= input.Length && o + 2 * count <= output.Length
      requires |done| == o && output[..o] == DitherAll(done, fixVolume, start) && dither == After(o, fixVolume, start)
      modifies `dither, output
      ensures output[..o + 2 * count] == DitherAll(done + input[p..p + 2 * count], fixVolume, start)
      ensures dither == After(o + 2 * count, fixVolume, start)
    {
      hide DitherAll, After;
      assert done + input[p..p] == done;
      for i := 0 to count
        invariant output[..o + 2 * i] == DitherAll(done + input[p..p + 2 * i], fixVolume, start)
        invariant dither == After(o + 2 * i, fixVolume, start)
      {
        ghost var sofar := done + input[p..p + 2 * i];
        var left, right := input[p + 2 * i], input[p + 2 * i + 1];
        assert done + input[p..p + 2 * (i + 1)] == sofar + [left, right];
        CopyStereo(left, right, output, o + 2 * i, sofar, start);
      }
    }

    /** stuff_buffer for a chosen kind and point of stuffing. An insertion
        writes one stereo sample more than it returns. */
    method StuffBuffer(input: array<int16>, output: array<int16>, stuff: int, stuffSamp: nat) returns (n: nat)
      requires frameSize >= 2 && -1 <= stuff <= 1 && stuffSamp < frameSize - 1
      requires stuff == 1 ==> stuffSamp >= 1
      requires input != output && input.Length == output.Length == 2 * (frameSize + 3)
      modifies `dither, output
      ensures n == frameSize + stuff
      ensures output[..2 * n] == DitherAll(Stuffed(input[..2 * frameSize], stuffSamp, stuff), fixVolume, old(dither))
      ensures dither == After(2 * (n + if stuff == 1 then 1 else 0), fixVolume, old(dither))
    {
      hide DitherAll, After, Stuffed;
      ghost var start, source := dither, input[..];
      NothingDithered(fixVolume, start);
      var s := if stuff == 0 then frameSize else stuffSamp;
      CopyRun(input, 0, s, output, 0, [], start);
      assert [] + input[0..2 * s] == source[..2 * s];
      n := frameSize + stuff;
      if stuff == 1 {
        InsertTail(input, output, s, start);
      } else if stuff == -1 {
        CopyRun(input, 2 * s + 2, frameSize - 1 - s, output, 2 * s, source[..2 * s], start);
        RemovedParts(source, s, frameSize);
      } else {
        NotStuffed(source[..2 * frameSize], stuffSamp);
      }
      assert input[..2 * frameSize] == source[..2 * frameSize];
    }

    /** The interpolated stereo sample and what follows it. */
    method InsertTail(input: array<int16>, output: array<int16>, s: nat, ghost start: Dither)
      requires 1 <= s < frameSize - 1 && input != output && input.Length == output.Length == 2 * (frameSize + 3)
      requires output[..2 * s] == DitherAll(input[..2 * s], fixVolume, start)
          && dither == After(2 * s, fixVolume, start)
      modifies `dither, output
      ensures output[..2 * frameSize + 2] == DitherAll(Stuffed(input[..2 * frameSize], s, 1), fixVolume, start)
      ensures dither == After(2 * frameSize + 4, fixVolume, start)
    {
      hide DitherAll, After, Midpoint, Stuffed;
      ghost var source := input[..];
      var left, right := Midpoint(input[2 * s - 2], input[2 * s]), Midpoint(input[2 * s - 1], input[2 * s + 1]);
      ghost var head := source[..2 * s] + [left, right];
      CopyStereo(left, right, output, 2 * s, source[..2 * s], start);
      CopyRun(input, 2 * s, frameSize + 1 - s, output, 2 * s + 2, head, start);
      ghost var w := head + source[2 * s..2 * frameSize + 2];
      assert w == head + input[2 * s..2 * s + 2 * (frameSize + 1 - s)];
      DitherPrefix(w, 2 * frameSize + 2, fixVolume, start);
      InsertedPrefix(source, s, frameSize);
      assert output[..2 * frameSize + 4][..2 * frameSize + 2] == output[..2 * frameSize + 2];
      assert input[..2 * frameSize] == source[..2 * frameSize];
    }
  }
}
