/** Interlacing and whole frames of 16-bit samples (alac.c), decoded in place
    and inverted by a reference encoder. */
module AlacFrame {
  import opened Arith
  import opened AlacBits
  import opened AlacChannel
  import opened Wrappers
  import Fir = AlacPredictor

  const SAMPLE_SIZE := 16
  const MONO := 0
  const STEREO := 1
  const MONO_SIZE := 16
  const STEREO_SIZE := 17

  // ----- Interlacing -----

  datatype Weights = Weights(shift: nat, leftWeight: nat)

  /** The weighted share of the difference that belongs to the right channel. */
  function Share(difference: int, w: Weights): int {
    Wrap32(difference * w.leftWeight) / Pow2(w.shift)
  }

  function RightOf(a: int, b: int, w: Weights): int16 {
    if w.leftWeight != 0 then Wrap16(Wrap32(a - Share(b, w))) else Wrap16(b)
  }

  function LeftOf(a: int, b: int, w: Weights): int16 {
    if w.leftWeight != 0 then Wrap16(RightOf(a, b, w) as int + b) else Wrap16(a)
  }

  /** left, right, left, right, .. */
  function Interleave<T>(left: seq<T>, right: seq<T>): (s: seq<T>)
    requires |left| == |right|
    ensures |s| == 2 * |left|
    ensures forall i :: 0 <= i < |left| ==> s[2 * i] == left[i] && s[2 * i + 1] == right[i]
  {
    seq(2 * |left|, i requires 0 <= i < 2 * |left| => if i % 2 == 0 then left[i / 2] else right[i / 2])
  }

  function Deinterlaced(a: seq<int>, b: seq<int>, w: Weights): (s: seq<int16>)
    requires |a| == |b|
    ensures |s| == 2 * |a|
  {
    Interleave(seq(|a|, i requires 0 <= i < |a| => LeftOf(a[i], b[i], w)),
               seq(|a|, i requires 0 <= i < |a| => RightOf(a[i], b[i], w)))
  }

  function MixA(left: int16, right: int16, w: Weights): int {
    if w.leftWeight != 0 then SignExt(right + Share(left as int - right, w), STEREO_SIZE) else left
  }

  function MixB(left: int16, right: int16, w: Weights): int {
    if w.leftWeight != 0 then left as int - right else right
  }

  /** Unmixing undoes mixing for every weight and shift, even where the mixed
      sample wraps around at 17 bits. */
  lemma UnmixMix(left: int16, right: int16, w: Weights)
    ensures Signed(MixA(left, right, w), STEREO_SIZE) && Signed(MixB(left, right, w), STEREO_SIZE)
    ensures LeftOf(MixA(left, right, w), MixB(left, right, w), w) == left
    ensures RightOf(MixA(left, right, w), MixB(left, right, w), w) == right
  {
    hide Share, SignExt, Pow2;
    Pow2At16();
    SignExtIdentity(left, 16);
    SignExtIdentity(right, 16);
    if w.leftWeight != 0 {
      var share := Share(left as int - right, w);
      SignExtRange(right + share, STEREO_SIZE);
      var k := Carry(right + share, STEREO_SIZE);
      Fir.WrapThenExtend(MixA(left, right, w) - share, 16);
      SignExtCongruent(right, 2 * k, 16);
    }
  }

  /** What unmixing means where nothing leaves its width: the right channel is the
      middle channel less the weighted share of the difference, which is the
      product over 2^shift rounded down; the left channel is the right one plus
      the difference. Without a weight the channels are left and right. */
  lemma UnmixMeaning(a: int, b: int, w: Weights) returns (share: int)
    requires -0x8000_0000 <= b * w.leftWeight < 0x8000_0000
    ensures Pow2(w.shift) * share <= b * w.leftWeight < Pow2(w.shift) * share + Pow2(w.shift)
    ensures w.leftWeight != 0 && -0x8000 <= a - share < 0x8000 ==> RightOf(a, b, w) == a - share
    ensures w.leftWeight != 0 && -0x8000 <= RightOf(a, b, w) + b < 0x8000 ==> LeftOf(a, b, w) == RightOf(a, b, w) + b
    ensures w.leftWeight == 0 && -0x8000 <= a < 0x8000 ==> LeftOf(a, b, w) == a
    ensures w.leftWeight == 0 && -0x8000 <= b < 0x8000 ==> RightOf(a, b, w) == b
  {
    hide Wrap16, Wrap32, Pow2;
    share := Share(b, w);
    Fir.Wrap32InRange(b * w.leftWeight);
    FloorOf(b * w.leftWeight, Pow2(w.shift));
    if w.leftWeight != 0 {
      if -0x8000 <= a - share < 0x8000 {
        Fir.Wrap32InRange(a - share);
        Wrap16InRange(a - share);
      }
      Wrap16InRange(RightOf(a, b, w) + b);
    } else {
      Wrap16InRange(a);
      Wrap16InRange(b);
    }
  }

  lemma Wrap16InRange(v: int)
    ensures -0x8000 <= v < 0x8000 ==> Wrap16(v) == v
  {
    Pow2At16();
    if -0x8000 <= v < 0x8000 {
      SignExtIdentity(v, 16);
    }
  }

  method Unmix(midRight: int, difference: int, w: Weights) returns (left: int16, right: int16)
    requires w.leftWeight != 0
    ensures left == LeftOf(midRight, difference, w) && right == RightOf(midRight, difference, w)
  {
    hide Wrap16, Wrap32;
    right := Wrap16(Wrap32(midRight - Wrap32(difference * w.leftWeight) / Pow2(w.shift)));
    left := Wrap16(right as int + difference);
  }

  lemma BasicChannels(a: int, b: int, w: Weights)
    requires w.leftWeight == 0
    ensures LeftOf(a, b, w) == Wrap16(a) && RightOf(a, b, w) == Wrap16(b)
  {
  }

  /** Some pairs are done, and the rest of the output is as before. */
  ghost predicate Filled(out: seq<int16>, goal: seq<int16>, before: seq<int16>, pairs: nat) {
    2 * pairs <= |goal| <= |before| && out == goal[..2 * pairs] + before[2 * pairs..]
  }

  lemma FilledStart(before: seq<int16>, goal: seq<int16>)
    requires |goal| <= |before|
    ensures Filled(before, goal, before, 0)
  {
  }

  lemma FilledEnd(out: seq<int16>, goal: seq<int16>, before: seq<int16>, pairs: nat)
    requires Filled(out, goal, before, pairs) && |goal| == 2 * pairs
    ensures out == goal + before[2 * pairs..]
  {
  }

  method Deinterlace16(a: array<int>, b: array<int>, out: array<int16>, n: nat, w: Weights)
    requires n <= a.Length && n <= b.Length && 2 * n <= out.Length
    modifies out
    ensures out[..] == Deinterlaced(old(a[..n]), old(b[..n]), w) + old(out[2 * n..])
  {
    hide Wrap16, Deinterlaced, LeftOf, RightOf, Filled;
    ghost var before, aa, bs := out[..], a[..n], b[..n];
    ghost var goal := Deinterlaced(aa, bs, w);
    assert before[2 * n..] == out[2 * n..];
    FilledStart(before, goal);
    if w.leftWeight != 0 {
      for i := 0 to n
        invariant a[..n] == aa && b[..n] == bs
        invariant Filled(out[..], goal, before, i)
      {
        DeinterlacedAt(aa, bs, w, i);
        assert a[i] == aa[i] && b[i] == bs[i];
        var left, right := Unmix(a[i], b[i], w);
        WritePair(out, i, left, right, goal, before);
      }
    } else {
      for i := 0 to n
        invariant a[..n] == aa && b[..n] == bs
        invariant Filled(out[..], goal, before, i)
      {
        DeinterlacedAt(aa, bs, w, i);
        assert a[i] == aa[i] && b[i] == bs[i];
        BasicChannels(a[i], b[i], w);
        WritePair(out, i, Wrap16(a[i]), Wrap16(b[i]), goal, before);
      }
    }
    FilledEnd(out[..], goal, before, n);
  }

  lemma DeinterlacedAt(a: seq<int>, b: seq<int>, w: Weights, i: nat)
    requires |a| == |b| && i < |a|
    ensures Deinterlaced(a, b, w)[2 * i] == LeftOf(a[i], b[i], w)
    ensures Deinterlaced(a, b, w)[2 * i + 1] == RightOf(a[i], b[i], w)
  {
    hide LeftOf, RightOf;
    assert (2 * i + 1) / 2 == i && (2 * i + 1) % 2 == 1;
  }

  method WritePair(out: array<int16>, i: nat, left: int16, right: int16, ghost goal: seq<int16>,
                   ghost before: seq<int16>)
    requires 2 * i + 1 < |goal| <= out.Length == |before|
    requires Filled(out[..], goal, before, i) && left == goal[2 * i] && right == goal[2 * i + 1]
    modifies out
    ensures Filled(out[..], goal, before, i + 1)
  {
    out[2 * i] := left;
    out[2 * i + 1] := right;
  }

  // ----- Reading a frame -----

  /** The fields between the channel tag and the compressed or raw part. */
  datatype Header = Header(samples: nat, uncompressedBytes: nat, raw: bool, end: nat)

  /** None: the frame claims more samples than the buffers hold. */
  function ReadHeader(bits: Bits, setup: Setup): (r: Option<Header>)
    ensures r.Some? ==> r.value.samples <= setup.maxSamples
  {
    var _ :- Read(bits, 3, 4);
    var _ :- Read(bits, 7, 12);
    var hasSize :- Read(bits, 19, 1);
    var uncompressedBytes :- Read(bits, 20, 2);
    var notCompressed :- Read(bits, 22, 1);
    var samples :- if hasSize != 0 then Read(bits, 23, 32) else Some(setup.maxSamples);
    if samples > setup.maxSamples then None
    else Some(Header(samples, uncompressedBytes, notCompressed != 0, if hasSize != 0 then 55 else 23))
  }

  /** Where the header fields stand. */
  lemma HeaderLayout(bits: Bits, setup: Setup)
    requires ReadHeader(bits, setup).Some?
    ensures var h := ReadHeader(bits, setup).value;
      && |bits| >= 23 && h.uncompressedBytes == Value(bits, 20, 2) && h.raw == bits[22]
      && (if bits[19] then h.end == 55 <= |bits| && h.samples == Value(bits, 23, 32)
          else h.end == 23 && h.samples == setup.maxSamples)
  {
    hide Value;
    assert Readable(bits, 22, 1) && Readable(bits, 19, 1);
    OneBit(bits, 19);
    OneBit(bits, 22);
  }

  /** n samples of 16 bits each. */
  function ReadSamples(bits: Bits, p: nat, n: nat): (r: Option<seq<int>>)
    ensures r.Some? ==> |r.value| == n
  {
    if n == 0 then Some([])
    else
      var first :- ReadSamples(bits, p, n - 1);
      var v :- Read(bits, p + 16 * (n - 1), 16);
      Some(first + [SignExt(v, 16)])
  }

  function Narrow(samples: seq<int>): (s: seq<int16>)
    ensures |s| == |samples|
  {
    seq(|samples|, i requires 0 <= i < |samples| => Wrap16(samples[i]))
  }

  /** C shifts by less than the width; without a weight there is no shift. */
  predicate ShiftOk(w: Weights) {
    w.leftWeight != 0 ==> w.shift <= 31
  }

  /** The two mixed channels of a compressed stereo frame. */
  datatype Body = Body(weights: Weights, a: seq<int>, b: seq<int>)

  function ReadStereoBody(bits: Bits, p: nat, n: nat, setup: Setup): (r: Option<Body>)
    ensures r.Some? ==> |r.value.a| == |r.value.b| == n
  {
    var shift :- Read(bits, p, 8);
    var leftWeight :- Read(bits, p + 8, 8);
    var chA :- ReadChannel(bits, p + 16);
    var chB :- ReadChannel(bits, p + 16 + ChannelBits(chA));
    if !ShiftOk(Weights(shift, leftWeight)) then None
    else if !ChannelOk(chA, setup, STEREO_SIZE) || !ChannelOk(chB, setup, STEREO_SIZE) then None
    else
      var a :- ReadErrors(bits, p + 16 + ChannelBits(chA) + ChannelBits(chB), n, chA, setup, STEREO_SIZE);
      var b :- ReadErrors(bits, a.end, n, chB, setup, STEREO_SIZE);
      Some(Body(Weights(shift, leftWeight), Restored(a.values, chA, STEREO_SIZE), Restored(b.values, chB, STEREO_SIZE)))
  }

  /** From p on stand the residuals of n samples of a channel, up to end. */
  predicate ChannelAt(bits: Bits, p: nat, n: nat, ch: Channel, setup: Setup, size: nat, samples: seq<int>, end: nat) {
    && ChannelOk(ch, setup, size)
    && var r := ReadErrors(bits, p, n, ch, setup, size);
       r.Some? && samples == Restored(r.value.values, ch, size) && end == r.value.end
  }

  /** A compressed stereo frame: shift, weight, both channel headers, then the
      residuals of the channels in turn, in samples of 17 bits. */
  lemma StereoLayout(bits: Bits, p: nat, n: nat, setup: Setup) returns (chA: Channel, chB: Channel, q: nat, end: nat)
    requires ReadStereoBody(bits, p, n, setup).Some?
    ensures p + 16 <= |bits| && ReadChannel(bits, p + 16) == Some(chA)
    ensures ReadChannel(bits, p + 32 + 16 * |chA.coefs|) == Some(chB)
    ensures var body := ReadStereoBody(bits, p, n, setup).value;
      && body.weights == Weights(Value(bits, p, 8), Value(bits, p + 8, 8))
      && ChannelAt(bits, p + 48 + 16 * |chA.coefs| + 16 * |chB.coefs|, n, chA, setup, 17, body.a, q)
      && ChannelAt(bits, q, n, chB, setup, 17, body.b, end)
  {
    hide Value, ReadChannel, ReadErrors, ChannelOk, Restored;
    chA := ReadChannel(bits, p + 16).value;
    chB := ReadChannel(bits, p + 16 + ChannelBits(chA)).value;
    q := ReadErrors(bits, p + 16 + ChannelBits(chA) + ChannelBits(chB), n, chA, setup, STEREO_SIZE).value.end;
    end := ReadErrors(bits, q, n, chB, setup, STEREO_SIZE).value.end;
  }

  /** A compressed mono frame; two bytes before the channel header are skipped. */
  function ReadMonoBody(bits: Bits, p: nat, n: nat, setup: Setup): (r: Option<seq<int>>)
    ensures r.Some? ==> |r.value| == n
  {
    var _ :- Read(bits, p, 8);
    var _ :- Read(bits, p + 8, 8);
    var ch :- ReadChannel(bits, p + 16);
    if !ChannelOk(ch, setup, MONO_SIZE) then None
    else
      var a :- ReadErrors(bits, p + 16 + ChannelBits(ch), n, ch, setup, MONO_SIZE);
      Some(Restored(a.values, ch, MONO_SIZE))
  }

  lemma MonoLayout(bits: Bits, p: nat, n: nat, setup: Setup) returns (ch: Channel, end: nat)
    requires ReadMonoBody(bits, p, n, setup).Some?
    ensures ReadChannel(bits, p + 16) == Some(ch)
    ensures ChannelAt(bits, p + 32 + 16 * |ch.coefs|, n, ch, setup, 16, ReadMonoBody(bits, p, n, setup).value, end)
  {
    hide Value, ReadChannel, ReadErrors, ChannelOk, Restored;
    ch := ReadChannel(bits, p + 16).value;
    end := ReadErrors(bits, p + 16 + ChannelBits(ch), n, ch, setup, MONO_SIZE).value.end;
  }

  /** A raw sample: 16 bits in two's complement, one after the other. */
  lemma {:induction false} SamplesLayout(bits: Bits, p: nat, n: nat)
    requires ReadSamples(bits, p, n).Some?
    ensures var s := ReadSamples(bits, p, n).value;
      && (n > 0 ==> p + 16 * n <= |bits|)
      && forall i :: 0 <= i < n ==>
           s[i] == if bits[p + 16 * i] then Value(bits, p + 16 * i, 16) - 0x1_0000 else Value(bits, p + 16 * i, 16)
  {
    hide Value, SignExt, Wrap16;
    if n > 0 {
      SamplesLayout(bits, p, n - 1);
      TwosComplement(bits, p + 16 * (n - 1));
    }
  }

  function ReadStereo(bits: Bits, h: Header, setup: Setup): Option<seq<int16>> {
    if h.raw then
      var raw :- ReadSamples(bits, h.end, 2 * h.samples);
      Some(Narrow(raw))
    else if h.uncompressedBytes != 0 then None
    else
      var body :- ReadStereoBody(bits, h.end, h.samples, setup);
      Some(Deinterlaced(body.a, body.b, body.weights))
  }

  function ReadMono(bits: Bits, h: Header, setup: Setup): Option<seq<int16>> {
    if h.raw then
      var raw :- ReadSamples(bits, h.end, h.samples);
      Some(Narrow(raw))
    else if h.uncompressedBytes != 0 then None
    else
      var body :- ReadMonoBody(bits, h.end, h.samples, setup);
      Some(Narrow(body))
  }

  /** A decoded frame: its channel tag, its samples per channel, and the samples
      of a stereo frame (interleaved) or a mono frame. */
  datatype Frame = Frame(channels: nat, count: nat, samples: seq<int16>)

  /** What alac_decode_frame makes of a packet; other channel tags are skipped.
      None: a frame for which the C code has no defined result. */
  function DecodeFrame(bits: Bits, setup: Setup): (r: Option<Frame>)
    ensures r.Some? && r.value.channels == STEREO ==> |r.value.samples| == 2 * r.value.count
    ensures r.Some? && r.value.channels == MONO ==> |r.value.samples| == r.value.count
  {
    var channels :- Read(bits, 0, 3);
    if channels == STEREO then
      var h :- ReadHeader(bits, setup);
      var samples :- ReadStereo(bits, h, setup);
      Some(Frame(channels, h.samples, samples))
    else if channels == MONO then
      var h :- ReadHeader(bits, setup);
      var samples :- ReadMono(bits, h, setup);
      Some(Frame(channels, h.samples, samples))
    else Some(Frame(channels, setup.maxSamples, []))
  }

  // ----- The reference encoder -----

  /** Everything an encoder is free to choose. */
  datatype Config = Config(unknown4: nat, unknown12: nat, hasSize: bool, raw: bool, weights: Weights, chA: Channel,
                           chB: Channel)

  predicate HeaderOk(cfg: Config, samples: nat, setup: Setup) {
    && samples <= 0xFFFF && samples <= setup.maxSamples
    && (cfg.hasSize || samples == setup.maxSamples)
    && cfg.unknown4 < 16 && cfg.unknown12 < 4096
    && cfg.weights.shift <= 255 && cfg.weights.leftWeight <= 255
  }

  predicate StereoOk(cfg: Config, samples: nat, setup: Setup) {
    && HeaderOk(cfg, samples, setup)
    && (!cfg.raw ==>
          && ShiftOk(cfg.weights)
          && ChannelOk(cfg.chA, setup, STEREO_SIZE) && ChannelOk(cfg.chB, setup, STEREO_SIZE))
  }

  predicate MonoOk(cfg: Config, samples: nat, setup: Setup) {
    HeaderOk(cfg, samples, setup) && (!cfg.raw ==> ChannelOk(cfg.chA, setup, MONO_SIZE))
  }

  function EncodeHeader(channels: nat, samples: nat, cfg: Config): Bits {
    Be(channels, 3) + (Be(cfg.unknown4, 4) + (Be(cfg.unknown12, 12) + (Be(if cfg.hasSize then 1 else 0, 1)
    + (Be(0, 2) + (Be(if cfg.raw then 1 else 0, 1) + (if cfg.hasSize then Be(samples, 32) else []))))))
  }

  /** One of the two mixed channels. */
  function MixAll(left: seq<int16>, right: seq<int16>, w: Weights, second: bool): (s: seq<int>)
    requires |left| == |right|
    ensures |s| == |left|
  {
    seq(|left|, i requires 0 <= i < |left| => if second then MixB(left[i], right[i], w) else MixA(left[i], right[i], w))
  }

  lemma MixAllInRange(left: seq<int16>, right: seq<int16>, w: Weights, second: bool)
    requires |left| == |right| <= 0xFFFF
    ensures InRange(MixAll(left, right, w, second), STEREO_SIZE)
  {
    hide Signed, MixA, MixB;
    forall i | 0 <= i < |left|
      ensures Signed(MixAll(left, right, w, second)[i], STEREO_SIZE)
    {
      UnmixMix(left[i], right[i], w);
    }
  }

  lemma Int16InRange(samples: seq<int16>)
    requires |samples| <= 0xFFFF
    ensures InRange(samples, MONO_SIZE)
  {
    Pow2At16();
  }

  function EncodeMix(left: seq<int16>, right: seq<int16>, w: Weights, second: bool, ch: Channel, setup: Setup): Bits
    requires |left| == |right| <= 0xFFFF && ChannelOk(ch, setup, STEREO_SIZE)
  {
    MixAllInRange(left, right, w, second);
    EncodeErrors(MixAll(left, right, w, second), ch, setup, STEREO_SIZE)
  }

  function EncodeStereoBody(left: seq<int16>, right: seq<int16>, cfg: Config, setup: Setup): Bits
    requires |left| == |right| && StereoOk(cfg, |left|, setup) && !cfg.raw
  {
    Be(cfg.weights.shift, 8) + (Be(cfg.weights.leftWeight, 8) + (EncodeChannel(cfg.chA) + (EncodeChannel(cfg.chB)
    + (EncodeMix(left, right, cfg.weights, false, cfg.chA, setup)
       + EncodeMix(left, right, cfg.weights, true, cfg.chB, setup)))))
  }

  function EncodeMonoBody(samples: seq<int16>, cfg: Config, setup: Setup): Bits
    requires MonoOk(cfg, |samples|, setup) && !cfg.raw
  {
    Int16InRange(samples);
    Be(cfg.weights.shift, 8) + (Be(cfg.weights.leftWeight, 8) + (EncodeChannel(cfg.chA)
    + EncodeErrors(samples, cfg.chA, setup, MONO_SIZE)))
  }

  function EncodeStereo(left: seq<int16>, right: seq<int16>, cfg: Config, setup: Setup): Bits
    requires |left| == |right| && StereoOk(cfg, |left|, setup)
  {
    EncodeHeader(STEREO, |left|, cfg)
    + if cfg.raw then EncodeWords(Interleave(left, right)) else EncodeStereoBody(left, right, cfg, setup)
  }

  function EncodeMono(samples: seq<int16>, cfg: Config, setup: Setup): Bits
    requires MonoOk(cfg, |samples|, setup)
  {
    EncodeHeader(MONO, |samples|, cfg) + if cfg.raw then EncodeWords(samples) else EncodeMonoBody(samples, cfg, setup)
  }

  // ----- Decoding what was encoded -----

  lemma HeaderRoundTrip(bits: Bits, channels: nat, samples: nat, cfg: Config, setup: Setup, end: nat)
    requires channels <= 1 && HeaderOk(cfg, samples, setup)
    requires At(bits, 0, EncodeHeader(channels, samples, cfg)) && Padded(bits, end)
        && |EncodeHeader(channels, samples, cfg)| <= end
    ensures Read(bits, 0, 3) == Some(channels)
    ensures ReadHeader(bits, setup) == Some(Header(samples, 0, cfg.raw, |EncodeHeader(channels, samples, cfg)|))
  {
    hide At, Padded, Be, Read;
    var size := if cfg.hasSize then Be(samples, 32) else [];
    var f6 := Be(if cfg.raw then 1 else 0, 1) + size;
    var f5 := Be(0, 2) + f6;
    var f4 := Be(if cfg.hasSize then 1 else 0, 1) + f5;
    var f3 := Be(cfg.unknown12, 12) + f4;
    var f2 := Be(cfg.unknown4, 4) + f3;
    AtSplit(bits, 0, Be(channels, 3), f2);
    AtSplit(bits, 3, Be(cfg.unknown4, 4), f3);
    AtSplit(bits, 7, Be(cfg.unknown12, 12), f4);
    AtSplit(bits, 19, Be(if cfg.hasSize then 1 else 0, 1), f5);
    AtSplit(bits, 20, Be(0, 2), f6);
    AtSplit(bits, 22, Be(if cfg.raw then 1 else 0, 1), size);
    FieldWidths();
    ReadBack(bits, 0, channels, 3, end);
    ReadBack(bits, 3, cfg.unknown4, 4, end);
    ReadBack(bits, 7, cfg.unknown12, 12, end);
    ReadBack(bits, 19, if cfg.hasSize then 1 else 0, 1, end);
    ReadBack(bits, 20, 0, 2, end);
    ReadBack(bits, 22, if cfg.raw then 1 else 0, 1, end);
    if cfg.hasSize {
      ReadBack(bits, 23, samples, 32, end);
    }
  }

  lemma {:induction false} SamplesRoundTrip(bits: Bits, p: nat, samples: seq<int16>, end: nat)
    requires At(bits, p, EncodeWords(samples)) && Padded(bits, end) && p + 16 * |samples| <= end
    ensures ReadSamples(bits, p, |samples|) == Some(samples)
  {
    hide At, Padded, Be, Low16, Read, SignExt;
    if samples != [] {
      var n := |samples| - 1;
      AtSplit(bits, p, EncodeWords(samples[..n]), Be(Low16(samples[n]), 16));
      SamplesRoundTrip(bits, p, samples[..n], end);
      Read16Back(bits, p + 16 * n, samples[n], end);
      Last(samples);
    }
  }

  lemma NarrowIsExact(samples: seq<int16>)
    ensures Narrow(samples) == samples
  {
    Pow2At16();
    forall i | 0 <= i < |samples|
      ensures Wrap16(samples[i]) == samples[i]
    {
      SignExtIdentity(samples[i], 16);
    }
  }

  lemma MixRoundTrip(bits: Bits, p: nat, left: seq<int16>, right: seq<int16>, w: Weights, second: bool, ch: Channel,
                     setup: Setup, end: nat)
    requires |left| == |right| <= 0xFFFF && ChannelOk(ch, setup, STEREO_SIZE)
    requires At(bits, p, EncodeMix(left, right, w, second, ch, setup))
    requires Padded(bits, end) && p + |EncodeMix(left, right, w, second, ch, setup)| <= end
    ensures var r := ReadErrors(bits, p, |left|, ch, setup, STEREO_SIZE);
      && r.Some? && r.value.end == p + |EncodeMix(left, right, w, second, ch, setup)|
      && Restored(r.value.values, ch, STEREO_SIZE) == MixAll(left, right, w, second)
  {
    hide ReadErrors, EncodeErrors, Restored, MixAll, InRange, At, Padded;
    MixAllInRange(left, right, w, second);
    ErrorsRoundTrip(bits, p, MixAll(left, right, w, second), ch, setup, STEREO_SIZE, end);
  }

  lemma StereoBodyRoundTrip(bits: Bits, p: nat, left: seq<int16>, right: seq<int16>, cfg: Config, setup: Setup,
                            end: nat)
    requires |left| == |right| && StereoOk(cfg, |left|, setup) && !cfg.raw
    requires At(bits, p, EncodeStereoBody(left, right, cfg, setup))
    requires Padded(bits, end) && p + |EncodeStereoBody(left, right, cfg, setup)| <= end
    ensures ReadStereoBody(bits, p, |left|, setup)
         == Some(Body(cfg.weights, MixAll(left, right, cfg.weights, false), MixAll(left, right, cfg.weights, true)))
  {
    hide At, Padded, Be, Read, EncodeMix, EncodeChannel, ReadChannel, ReadErrors, Restored, ChannelBits, ChannelOk,
        MixAll;
    var w := cfg.weights;
    var a, b := EncodeMix(left, right, w, false, cfg.chA, setup), EncodeMix(left, right, w, true, cfg.chB, setup);
    var hA, hB := EncodeChannel(cfg.chA), EncodeChannel(cfg.chB);
    AtSplit(bits, p, Be(w.shift, 8), Be(w.leftWeight, 8) + (hA + (hB + (a + b))));
    AtSplit(bits, p + 8, Be(w.leftWeight, 8), hA + (hB + (a + b)));
    AtSplit(bits, p + 16, hA, hB + (a + b));
    AtSplit(bits, p + 16 + |hA|, hB, a + b);
    AtSplit(bits, p + 16 + |hA| + |hB|, a, b);
    FieldWidths();
    ReadBack(bits, p, w.shift, 8, end);
    ReadBack(bits, p + 8, w.leftWeight, 8, end);
    ChannelRoundTrip(bits, p + 16, cfg.chA, setup, STEREO_SIZE, end);
    ChannelRoundTrip(bits, p + 16 + |hA|, cfg.chB, setup, STEREO_SIZE, end);
    MixRoundTrip(bits, p + 16 + |hA| + |hB|, left, right, w, false, cfg.chA, setup, end);
    MixRoundTrip(bits, p + 16 + |hA| + |hB| + |a|, left, right, w, true, cfg.chB, setup, end);
  }

  lemma MonoBodyRoundTrip(bits: Bits, p: nat, samples: seq<int16>, cfg: Config, setup: Setup, end: nat)
    requires MonoOk(cfg, |samples|, setup) && !cfg.raw
    requires At(bits, p, EncodeMonoBody(samples, cfg, setup))
    requires Padded(bits, end) && p + |EncodeMonoBody(samples, cfg, setup)| <= end
    ensures ReadMonoBody(bits, p, |samples|, setup) == Some(samples)
  {
    hide At, Padded, Be, Read, EncodeErrors, EncodeChannel, ReadChannel, ReadErrors, Restored, ChannelBits, ChannelOk,
        InRange;
    var w, h := cfg.weights, EncodeChannel(cfg.chA);
    Int16InRange(samples);
    var e := EncodeErrors(samples, cfg.chA, setup, MONO_SIZE);
    AtSplit(bits, p, Be(w.shift, 8), Be(w.leftWeight, 8) + (h + e));
    AtSplit(bits, p + 8, Be(w.leftWeight, 8), h + e);
    AtSplit(bits, p + 16, h, e);
    FieldWidths();
    ReadBack(bits, p, w.shift, 8, end);
    ReadBack(bits, p + 8, w.leftWeight, 8, end);
    ChannelRoundTrip(bits, p + 16, cfg.chA, setup, MONO_SIZE, end);
    ErrorsRoundTrip(bits, p + 16 + |h|, samples, cfg.chA, setup, MONO_SIZE, end);
  }

  lemma DeinterlaceMixed(left: seq<int16>, right: seq<int16>, w: Weights)
    requires |left| == |right|
    ensures Deinterlaced(MixAll(left, right, w, false), MixAll(left, right, w, true), w) == Interleave(left, right)
  {
    hide MixA, MixB, LeftOf, RightOf;
    var a, b := MixAll(left, right, w, false), MixAll(left, right, w, true);
    forall i | 0 <= i < |left|
      ensures LeftOf(a[i], b[i], w) == left[i] && RightOf(a[i], b[i], w) == right[i]
    {
      UnmixMix(left[i], right[i], w);
    }
  }

  lemma StereoRoundTrip(bits: Bits, left: seq<int16>, right: seq<int16>, cfg: Config, setup: Setup)
    requires |left| == |right| && StereoOk(cfg, |left|, setup)
    requires At(bits, 0, EncodeStereo(left, right, cfg, setup)) && Padded(bits, |EncodeStereo(left, right, cfg, setup)|)
    ensures DecodeFrame(bits, setup) == Some(Frame(STEREO, |left|, Interleave(left, right)))
  {
    hide At, Padded, Read, EncodeHeader, EncodeWords, EncodeStereoBody, ReadHeader, ReadStereoBody, ReadSamples,
      Deinterlaced, Interleave, Narrow, ChannelOk;
    var end := |EncodeStereo(left, right, cfg, setup)|;
    var header := EncodeHeader(STEREO, |left|, cfg);
    AtSplit(bits, 0, header, if cfg.raw then EncodeWords(Interleave(left, right))
        else EncodeStereoBody(left, right, cfg, setup));
    HeaderRoundTrip(bits, STEREO, |left|, cfg, setup, end);
    if cfg.raw {
      SamplesRoundTrip(bits, |header|, Interleave(left, right), end);
      NarrowIsExact(Interleave(left, right));
    } else {
      StereoBodyRoundTrip(bits, |header|, left, right, cfg, setup, end);
      DeinterlaceMixed(left, right, cfg.weights);
    }
  }

  lemma MonoRoundTrip(bits: Bits, samples: seq<int16>, cfg: Config, setup: Setup)
    requires MonoOk(cfg, |samples|, setup)
    requires At(bits, 0, EncodeMono(samples, cfg, setup)) && Padded(bits, |EncodeMono(samples, cfg, setup)|)
    ensures DecodeFrame(bits, setup) == Some(Frame(MONO, |samples|, samples))
  {
    hide At, Padded, Read, EncodeHeader, EncodeWords, EncodeMonoBody, ReadHeader, ReadMonoBody, ReadSamples, Narrow,
        ChannelOk;
    var end := |EncodeMono(samples, cfg, setup)|;
    var header := EncodeHeader(MONO, |samples|, cfg);
    AtSplit(bits, 0, header, if cfg.raw then EncodeWords(samples) else EncodeMonoBody(samples, cfg, setup));
    HeaderRoundTrip(bits, MONO, |samples|, cfg, setup, end);
    if cfg.raw {
      SamplesRoundTrip(bits, |header|, samples, end);
    } else {
      MonoBodyRoundTrip(bits, |header|, samples, cfg, setup, end);
    }
    NarrowIsExact(samples);
  }

  /** The codec is lossless on stereo frames, for every choice an encoder is free to make. */
  lemma StereoLossless(left: seq<int16>, right: seq<int16>, cfg: Config, setup: Setup)
    requires |left| == |right| && StereoOk(cfg, |left|, setup)
    ensures DecodeFrame(BitsOf(Pack(EncodeStereo(left, right, cfg, setup))), setup)
         == Some(Frame(STEREO, |left|, Interleave(left, right)))
  {
    hide DecodeFrame, EncodeStereo, Pack, BitsOf, Interleave, StereoOk;
    PackHolds(EncodeStereo(left, right, cfg, setup));
    StereoRoundTrip(BitsOf(Pack(EncodeStereo(left, right, cfg, setup))), left, right, cfg, setup);
  }

  /** And on mono frames. */
  lemma MonoLossless(samples: seq<int16>, cfg: Config, setup: Setup)
    requires MonoOk(cfg, |samples|, setup)
    ensures DecodeFrame(BitsOf(Pack(EncodeMono(samples, cfg, setup))), setup) == Some(Frame(MONO, |samples|, samples))
  {
    hide DecodeFrame, EncodeMono, Pack, BitsOf, MonoOk;
    PackHolds(EncodeMono(samples, cfg, setup));
    MonoRoundTrip(BitsOf(Pack(EncodeMono(samples, cfg, setup))), samples, cfg, setup);
  }

  // ----- The decoder -----

  /** The output buffer after a frame: both channels of a stereo frame, the left
      channel only of a mono frame, nothing else. */
  function Written(out: seq<int16>, f: Frame): seq<int16>
    requires f.channels == STEREO ==> |f.samples| == 2 * f.count <= |out|
    requires f.channels == MONO ==> |f.samples| == f.count && 2 * f.count <= |out|
  {
    if f.channels == STEREO then f.samples + out[2 * f.count..]
    else if f.channels == MONO then
      seq(|out|, i requires 0 <= i < |out| => if i % 2 == 0 && i / 2 < f.count then f.samples[i / 2] else out[i])
    else out
  }

  /** A frame by its tag of three bits: 1 is stereo, 0 is mono, and anything else
      leaves the output alone. */
  lemma FrameMeaning(bits: Bits, setup: Setup)
    requires DecodeFrame(bits, setup).Some?
    ensures |bits| >= 3
    ensures var f, tag := DecodeFrame(bits, setup).value, Value(bits, 0, 3);
      && f.channels == tag
      && (tag <= 1 ==> ReadHeader(bits, setup).Some? && f.count == ReadHeader(bits, setup).value.samples)
      && (tag == 1 ==> ReadStereo(bits, ReadHeader(bits, setup).value, setup) == Some(f.samples))
      && (tag == 0 ==> ReadMono(bits, ReadHeader(bits, setup).value, setup) == Some(f.samples))
      && (tag > 1 ==> f.count == setup.maxSamples && forall out :: Written(out, f) == out)
  {
    hide Value, ReadHeader, ReadStereo, ReadMono;
  }

  /** A stereo frame fills the output pair by pair, a mono frame only the left
      half of each pair. */
  lemma WrittenMeaning(out: seq<int16>, f: Frame, i: nat)
    requires f.channels <= 1 && |f.samples| == (f.channels + 1) * f.count && 2 * f.count <= |out| && i < |out|
    ensures |Written(out, f)| == |out|
    ensures Written(out, f)[i]
         == if f.channels == 1 && i < 2 * f.count then f.samples[i]
            else if f.channels == 0 && i % 2 == 0 && i < 2 * f.count then f.samples[i / 2]
            else out[i]
  {
    assert f.channels == 0 || f.channels == 1;
  }

  method ReadFrameHeader(alac: BitReader, setup: Setup)
      returns (samples: nat, uncompressedBytes: nat, notCompressed: bool)
    requires alac.Valid() && alac.P() == 3 && ReadHeader(alac.Bits(), setup).Some?
    modifies alac`pos, alac`acc
    ensures alac.Valid()
    ensures ReadHeader(alac.Bits(), setup) == Some(Header(samples, uncompressedBytes, notCompressed, alac.P()))
  {
    hide Readable, Value, BitsOf, Pow2;
    samples := setup.maxSamples;
    var _ := alac.ReadBits(4);
    var _ := alac.ReadBits(12);
    var hasSize := alac.ReadBits(1);
    uncompressedBytes := alac.ReadBits(2);
    var raw := alac.ReadBits(1);
    notCompressed := raw != 0;
    if hasSize != 0 {
      samples := alac.ReadBits(32);
    }
  }

  lemma {:induction false} SamplesReadable(bits: Bits, p: nat, i: nat, n: nat)
    requires i <= n && ReadSamples(bits, p, n).Some?
    ensures ReadSamples(bits, p, i).Some? && ReadSamples(bits, p, 0) == Some([])
    decreases n
  {
    if i < n {
      SamplesReadable(bits, p, i, n - 1);
    }
  }

  lemma SamplesStep(bits: Bits, p: nat, i: nat, n: nat)
    requires i < n && ReadSamples(bits, p, n).Some?
    ensures ReadSamples(bits, p, i).Some? && Readable(bits, p + 16 * i, 16)
    ensures ReadSamples(bits, p, i + 1)
         == Some(ReadSamples(bits, p, i).value + [SignExt(Value(bits, p + 16 * i, 16), 16)])
  {
    hide SignExt, Readable, Value;
    SamplesReadable(bits, p, i + 1, n);
  }

  method ReadSample(alac: BitReader, ghost start: nat, ghost i: nat, ghost n: nat) returns (v: int)
    requires alac.Valid() && i < n && alac.P() == start + 16 * i && ReadSamples(alac.Bits(), start, n).Some?
    modifies alac`pos, alac`acc
    ensures alac.Valid() && alac.P() == start + 16 * (i + 1)
    ensures ReadSamples(alac.Bits(), start, i).Some?
    ensures ReadSamples(alac.Bits(), start, i + 1) == Some(ReadSamples(alac.Bits(), start, i).value + [v])
  {
    hide SignExt, Readable, Value, BitsOf, ReadSamples;
    SamplesStep(alac.Bits(), start, i, n);
    var audioBits := alac.ReadBits(SAMPLE_SIZE);
    v := SignExt(audioBits, SAMPLE_SIZE);
  }

  lemma InterleaveSnoc(a: seq<int>, b: seq<int>, x: int, y: int)
    requires |a| == |b|
    ensures Interleave(a + [x], b + [y]) == Interleave(a, b) + [x] + [y]
  {
  }

  lemma RawIsDeinterlaced(a: seq<int>, b: seq<int>)
    requires |a| == |b|
    ensures Deinterlaced(a, b, Weights(0, 0)) == Narrow(Interleave(a, b))
  {
    hide Wrap16;
  }

  class AlacFile {
    const setup: Setup
    const reader: BitReader
    const errorsA: array<int>
    const errorsB: array<int>
    const samplesA: array<int>
    const samplesB: array<int>

    /** The four work buffers are distinct and hold a maximal frame. */
    predicate Valid() {
      && errorsA.Length == errorsB.Length == samplesA.Length == samplesB.Length == setup.maxSamples
      && errorsA != errorsB && errorsA != samplesA && errorsA != samplesB
      && errorsB != samplesA && errorsB != samplesB && samplesA != samplesB
    }

    constructor (setup: Setup)
      ensures Valid() && this.setup == setup
    {
      this.setup := setup;
      reader := new BitReader();
      errorsA := new int[setup.maxSamples];
      errorsB := new int[setup.maxSamples];
      samplesA := new int[setup.maxSamples];
      samplesB := new int[setup.maxSamples];
    }

    method ReadRawStereo(n: nat)
      requires Valid() && n <= setup.maxSamples && reader.Valid()
      requires ReadSamples(reader.Bits(), reader.P(), 2 * n).Some?
      modifies reader`pos, reader`acc, samplesA, samplesB
      ensures reader.Valid()
      ensures ReadSamples(reader.Bits(), old(reader.P()), 2 * n) == Some(Interleave(samplesA[..n], samplesB[..n]))
    {
      hide BitsOf, ReadSamples, Interleave;
      ghost var bits, p := reader.Bits(), reader.P();
      SamplesReadable(bits, p, 0, 2 * n);
      for i := 0 to n
        invariant reader.Valid() && reader.P() == p + 16 * (2 * i)
        invariant ReadSamples(bits, p, 2 * i) == Some(Interleave(samplesA[..i], samplesB[..i]))
      {
        ghost var a, b := samplesA[..i], samplesB[..i];
        var audioA := ReadSample(reader, p, 2 * i, 2 * n);
        var audioB := ReadSample(reader, p, 2 * i + 1, 2 * n);
        InterleaveSnoc(a, b, audioA, audioB);
        samplesA[i], samplesB[i] := audioA, audioB;
        assert samplesA[..i + 1] == a + [audioA] && samplesB[..i + 1] == b + [audioB];
      }
    }

    method ReadRawMono(n: nat)
      requires Valid() && n <= setup.maxSamples && reader.Valid()
      requires ReadSamples(reader.Bits(), reader.P(), n).Some?
      modifies reader`pos, reader`acc, samplesA
      ensures reader.Valid()
      ensures ReadSamples(reader.Bits(), old(reader.P()), n) == Some(samplesA[..n])
    {
      hide BitsOf, ReadSamples;
      ghost var bits, p := reader.Bits(), reader.P();
      SamplesReadable(bits, p, 0, n);
      for i := 0 to n
        invariant reader.Valid() && reader.P() == p + 16 * i
        invariant ReadSamples(bits, p, i) == Some(samplesA[..i])
      {
        ghost var a := samplesA[..i];
        var audio := ReadSample(reader, p, i, n);
        samplesA[i] := audio;
        assert samplesA[..i + 1] == a + [audio];
      }
    }

    method DecodeStereoBody(n: nat) returns (w: Weights)
      requires Valid() && reader.Valid() && n <= setup.maxSamples
      requires ReadStereoBody(reader.Bits(), reader.P(), n, setup).Some?
      modifies reader`pos, reader`acc, errorsA, errorsB, samplesA, samplesB
      ensures reader.Valid()
      ensures ReadStereoBody(reader.Bits(), old(reader.P()), n, setup) == Some(Body(w, samplesA[..n], samplesB[..n]))
    {
      hide BitsOf, Readable, Value, ReadChannel, ReadErrors, Restored, ChannelOk;
      var shift := reader.ReadBits(8);
      var leftWeight := reader.ReadBits(8);
      w := Weights(shift, leftWeight);
      var tableA, tableB := new int16[TABLE_SIZE], new int16[TABLE_SIZE];
      var typeA, quantA, modifierA, coefNumA := ReadChannelHeader(reader, tableA);
      var typeB, quantB, modifierB, coefNumB := ReadChannelHeader(reader, tableB);
      ghost var chA := Channel(typeA, quantA, modifierA, tableA[..coefNumA]);
      ghost var chB := Channel(typeB, quantB, modifierB, tableB[..coefNumB]);
      TypeIsZero(chA, setup, STEREO_SIZE);
      TypeIsZero(chB, setup, STEREO_SIZE);
      DecodeChannel(reader, setup, STEREO_SIZE, errorsA, samplesA, n, chA, quantA, modifierA, coefNumA, tableA);
      ghost var first := samplesA[..n];
      DecodeChannel(reader, setup, STEREO_SIZE, errorsB, samplesB, n, chB, quantB, modifierB, coefNumB, tableB);
      assert samplesA[..n] == first;
    }

    method DecodeMonoBody(n: nat)
      requires Valid() && reader.Valid() && n <= setup.maxSamples
      requires ReadMonoBody(reader.Bits(), reader.P(), n, setup).Some?
      modifies reader`pos, reader`acc, errorsA, samplesA
      ensures reader.Valid()
      ensures ReadMonoBody(reader.Bits(), old(reader.P()), n, setup) == Some(samplesA[..n])
    {
      hide BitsOf, Readable, Value, ReadChannel, ReadErrors, Restored, ChannelOk;
      var _ := reader.ReadBits(8);
      var _ := reader.ReadBits(8);
      var table := new int16[TABLE_SIZE];
      var predictionType, quant, modifier, coefNum := ReadChannelHeader(reader, table);
      ghost var ch := Channel(predictionType, quant, modifier, table[..coefNum]);
      TypeIsZero(ch, setup, MONO_SIZE);
      DecodeChannel(reader, setup, MONO_SIZE, errorsA, samplesA, n, ch, quant, modifier, coefNum, table);
    }

    /** Only the left channel of the output is written. */
    method WriteMono(out: array<int16>, n: nat)
      requires Valid() && n <= setup.maxSamples && 2 * n <= out.Length
      modifies out
      ensures out[..] == Written(old(out[..]), Frame(MONO, n, Narrow(old(samplesA[..n]))))
    {
      hide Wrap16;
      ghost var before, samples := out[..], Narrow(samplesA[..n]);
      ghost var source := samplesA[..n];
      for i := 0 to n
        invariant samplesA[..n] == source
        invariant out[..] == Written(before, Frame(MONO, i, samples[..i]))
      {
        out[2 * i] := Wrap16(samplesA[i]);
        assert samples[i] == Wrap16(source[i]);
      }
      assert samples[..n] == samples;
    }

    method DecodeStereo(out: array<int16>) returns (n: nat)
      requires Valid() && reader.Valid() && reader.P() == 3 && ReadHeader(reader.Bits(), setup).Some?
      requires ReadStereo(reader.Bits(), ReadHeader(reader.Bits(), setup).value, setup).Some?
      requires 2 * ReadHeader(reader.Bits(), setup).value.samples <= out.Length
      modifies reader`pos, reader`acc, errorsA, errorsB, samplesA, samplesB, out
      ensures var h := ReadHeader(reader.Bits(), setup).value;
        n == h.samples && out[..] == ReadStereo(reader.Bits(), h, setup).value + old(out[2 * n..])
    {
      hide BitsOf, ReadHeader, ReadStereoBody, ReadSamples, Deinterlaced, Narrow, Interleave;
      var uncompressedBytes, notCompressed;
      n, uncompressedBytes, notCompressed := ReadFrameHeader(reader, setup);
      var w := Weights(0, 0);
      if !notCompressed {
        w := DecodeStereoBody(n);
      } else {
        ReadRawStereo(n);
        RawIsDeinterlaced(samplesA[..n], samplesB[..n]);
      }
      Deinterlace16(samplesA, samplesB, out, n, w);
    }

    method DecodeMono(out: array<int16>) returns (n: nat)
      requires Valid() && reader.Valid() && reader.P() == 3 && ReadHeader(reader.Bits(), setup).Some?
      requires ReadMono(reader.Bits(), ReadHeader(reader.Bits(), setup).value, setup).Some?
      requires 2 * ReadHeader(reader.Bits(), setup).value.samples <= out.Length
      modifies reader`pos, reader`acc, errorsA, samplesA, out
      ensures var h := ReadHeader(reader.Bits(), setup).value;
        n == h.samples && out[..] == Written(old(out[..]), Frame(MONO, n, ReadMono(reader.Bits(), h, setup).value))
    {
      hide BitsOf, ReadHeader, ReadMonoBody, ReadSamples, Narrow, Written;
      var uncompressedBytes, notCompressed;
      n, uncompressedBytes, notCompressed := ReadFrameHeader(reader, setup);
      if !notCompressed {
        DecodeMonoBody(n);
      } else {
        ReadRawMono(n);
      }
      WriteMono(out, n);
    }

    /** alac_decode_frame; the result is the output size in bytes, two channels
        of two bytes for each sample whatever the frame holds. */
    method AlacDecodeFrame(inbuffer: seq<byte>, outbuffer: array<int16>) returns (outputSize: int)
      requires Valid() && DecodeFrame(BitsOf(inbuffer), setup).Some?
      requires DecodeFrame(BitsOf(inbuffer), setup).value.channels <= STEREO
               ==> 2 * DecodeFrame(BitsOf(inbuffer), setup).value.count <= outbuffer.Length
      modifies reader, errorsA, errorsB, samplesA, samplesB, outbuffer
      ensures var f := DecodeFrame(BitsOf(inbuffer), setup).value;
        outputSize == f.count * 4 && outbuffer[..] == Written(old(outbuffer[..]), f)
    {
      hide BitsOf, Readable, Value, ReadHeader, ReadStereo, ReadMono;
      reader.Start(inbuffer);
      var channels := reader.ReadBits(3);
      outputSize := setup.maxSamples * 4;
      if channels == MONO {
        var n := DecodeMono(outbuffer);
        outputSize := n * 4;
      } else if channels == STEREO {
        var n := DecodeStereo(outbuffer);
        outputSize := n * 4;
      }
    }
  }

  lemma TypeIsZero(ch: Channel, setup: Setup, size: nat)
    requires ChannelOk(ch, setup, size)
    ensures ch.predictionType == 0
  {
  }
}
