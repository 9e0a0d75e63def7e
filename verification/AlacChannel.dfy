/** What a frame holds per channel (alac.c): its header with the coefficient
    table, and its samples as Rice-coded prediction residuals. */
module AlacChannel {
  import opened Arith
  import opened AlacBits
  import opened Wrappers
  import Rice = AlacRice
  import Fir = AlacPredictor

  const TABLE_SIZE := 32

  /** The parts of the decoder configuration that a frame depends on. */
  datatype Setup = Setup(maxSamples: nat, historyMult: byte, initialHistory: byte, kModifier: byte)

  datatype Channel = Channel(predictionType: nat, quant: nat, riceModifier: nat, coefs: seq<int16>)

  // ----- Reading -----

  function Read(bits: Bits, p: nat, n: nat): Option<nat>
    requires n <= 32
  {
    if Readable(bits, p, n) then Some(Value(bits, p, n)) else None
  }

  /** n coefficients of 16 bits each. */
  function ReadCoefs(bits: Bits, p: nat, n: nat): Option<seq<int16>>
  {
    if n == 0 then Some([])
    else
      var first :- ReadCoefs(bits, p, n - 1);
      var c :- Read(bits, p + 16 * (n - 1), 16);
      Some(first + [Wrap16(c)])
  }

  function ReadChannel(bits: Bits, p: nat): Option<Channel> {
    var predictionType :- Read(bits, p, 4);
    var quant :- Read(bits, p + 4, 4);
    var riceModifier :- Read(bits, p + 8, 3);
    var coefNum :- Read(bits, p + 11, 5);
    var coefs :- ReadCoefs(bits, p + 16, coefNum);
    Some(Channel(predictionType, quant, riceModifier, coefs))
  }

  /** Where the fields of a channel header stand: type, quantisation, Rice
      modifier and number of coefficients, then the coefficients in 16 bits of
      two's complement. */
  lemma ChannelLayout(bits: Bits, p: nat)
    requires ReadChannel(bits, p).Some?
    ensures var ch := ReadChannel(bits, p).value;
      && p + 16 + 16 * |ch.coefs| <= |bits|
      && ch.predictionType == Value(bits, p, 4) && ch.quant == Value(bits, p + 4, 4)
      && ch.riceModifier == Value(bits, p + 8, 3) && |ch.coefs| == Value(bits, p + 11, 5)
      && forall i :: 0 <= i < |ch.coefs| ==>
           ch.coefs[i] == if bits[p + 16 + 16 * i] then Value(bits, p + 16 + 16 * i, 16) - 0x1_0000
                          else Value(bits, p + 16 + 16 * i, 16)
  {
    hide Value, ReadCoefs, Wrap16;
    CoefsLayout(bits, p + 16, Value(bits, p + 11, 5));
  }

  lemma {:induction false} CoefsLayout(bits: Bits, p: nat, n: nat)
    requires ReadCoefs(bits, p, n).Some?
    ensures var coefs := ReadCoefs(bits, p, n).value;
      && |coefs| == n && (n > 0 ==> p + 16 * n <= |bits|)
      && forall i :: 0 <= i < n ==>
           coefs[i] == if bits[p + 16 * i] then Value(bits, p + 16 * i, 16) - 0x1_0000 else Value(bits, p + 16 * i, 16)
  {
    hide Value, Wrap16;
    if n > 0 {
      CoefsLayout(bits, p, n - 1);
      TwosComplement(bits, p + 16 * (n - 1));
    }
  }

  /** 16 bits in two's complement: the first is the sign. */
  lemma TwosComplement(bits: Bits, p: nat)
    requires p + 16 <= |bits|
    ensures Wrap16(Value(bits, p, 16)) == SignExt(Value(bits, p, 16), 16)
    ensures Wrap16(Value(bits, p, 16)) == if bits[p] then Value(bits, p, 16) - 0x1_0000 else Value(bits, p, 16)
  {
    hide Value;
    Pow2At16();
    ValueBound(bits, p + 1, 15);
    ValueSplit(bits, p, 1, 15);
    assert Value(bits, p, 1) == if bits[p] then 1 else 0 by { OneBit(bits, p); }
  }

  lemma OneBit(bits: Bits, p: nat)
    requires p < |bits|
    ensures Value(bits, p, 1) == if bits[p] then 1 else 0
  {
    assert Value(bits, p, 0) == 0;
  }

  function ChannelBits(ch: Channel): nat {
    16 + 16 * |ch.coefs|
  }

  function HistoryMult(riceModifier: nat, setup: Setup): nat {
    riceModifier * setup.historyMult / 4
  }

  /** A quarter of the product, rounded down. */
  lemma HistoryMultIsQuarter(riceModifier: nat, setup: Setup)
    ensures var m := HistoryMult(riceModifier, setup);
      4 * m <= riceModifier * setup.historyMult < 4 * m + 4
  {
    FloorOf(riceModifier * setup.historyMult, 4);
  }

  function RiceParams(ch: Channel, setup: Setup, size: nat): Rice.Params {
    Rice.Params(setup.initialHistory, setup.kModifier, HistoryMult(ch.riceModifier, setup), size)
  }

  function FirParams(ch: Channel, size: nat): Fir.Params {
    Fir.Params(size, |ch.coefs|, ch.quant)
  }

  /** The channel headers the decoder has a defined result for: adaptive FIR
      prediction, a quantisation of at least one where there is a filter, room
      for the warm-up, and Rice parameters that keep the history in 32 bits. */
  predicate ChannelOk(ch: Channel, setup: Setup, size: nat) {
    && setup.maxSamples >= 1
    && ch.predictionType == 0
    && ch.quant <= 15
    && (|ch.coefs| == Fir.FIRST_ORDER || |ch.coefs| < setup.maxSamples)
    && ch.riceModifier <= 7
    && Fir.Legal(FirParams(ch, size))
    && Rice.Legal(RiceParams(ch, setup, size))
  }

  /** The residuals of n samples of a channel, from position p. */
  function ReadErrors(bits: Bits, p: nat, n: nat, ch: Channel, setup: Setup, size: nat): (r: Option<Rice.Decoded>)
    requires ChannelOk(ch, setup, size)
    ensures r.Some? ==> |r.value.values| == n
  {
    var r := Rice.RiceDecode(bits, p, setup.initialHistory, 0, n, RiceParams(ch, setup, size));
    if r.Some? then
      RiceDecodeLength(bits, p, setup.initialHistory, 0, n, RiceParams(ch, setup, size));
      r
    else r
  }

  lemma {:induction false} RiceDecodeLength(bits: Bits, p: nat, history: int, signModifier: int, n: nat,
                                            prm: Rice.Params)
    requires Rice.Legal(prm) && Rice.HistoryOk(history, signModifier)
    requires Rice.RiceDecode(bits, p, history, signModifier, n, prm).Some?
    ensures |Rice.RiceDecode(bits, p, history, signModifier, n, prm).value.values| == n
    decreases n
  {
    hide Rice.DecodeRound;
    if n > 0 {
      var r := Rice.DecodeRound(bits, p, history, signModifier, n == 1, prm).value;
      RiceDecodeLength(bits, r.end, r.history, r.signModifier, n - 1 - r.zeros, prm);
    }
  }

  /** The samples that the residuals stand for. */
  function Restored(errors: seq<int>, ch: Channel, size: nat): (samples: seq<int>)
    requires Fir.Legal(FirParams(ch, size))
    ensures |samples| == |errors|
  {
    Fir.Decode(errors, ch.coefs, FirParams(ch, size)).samples
  }

  // ----- The reference encoder -----

  /** The 16 bits that stand for a value in two's complement. */
  function Low16(v: int): (r: nat)
    ensures r < 0x1_0000
  {
    v % 0x1_0000
  }

  /** Words of 16 bits, the most significant bit first. */
  function EncodeWords(words: seq<int16>): (bits: Bits)
    ensures |bits| == 16 * |words|
  {
    if words == [] then []
    else EncodeWords(words[..|words| - 1]) + Be(Low16(words[|words| - 1]), 16)
  }

  function EncodeChannel(ch: Channel): (bits: Bits)
    ensures |bits| == ChannelBits(ch)
  {
    Be(ch.predictionType, 4)
    + (Be(ch.quant, 4) + (Be(ch.riceModifier, 3) + (Be(|ch.coefs|, 5) + EncodeWords(ch.coefs))))
  }

  /** Samples that fit the read size, few enough for any zero run. */
  predicate InRange(samples: seq<int>, size: nat)
    requires size >= 1
  {
    |samples| <= 0xFFFF && forall i :: 0 <= i < |samples| ==> Signed(samples[i], size)
  }

  function Residuals(samples: seq<int>, ch: Channel, size: nat): (e: seq<int>)
    requires Fir.Legal(FirParams(ch, size))
    ensures |e| == |samples|
  {
    Fir.Encode(samples, ch.coefs, FirParams(ch, size)).errors
  }

  lemma ResidualsRoundTrip(samples: seq<int>, ch: Channel, size: nat)
    requires Fir.Legal(FirParams(ch, size)) && InRange(samples, size)
    ensures Rice.Encodable(Residuals(samples, ch, size), 0, size)
    ensures Restored(Residuals(samples, ch, size), ch, size) == samples
  {
    hide Signed;
    Fir.PredictorRoundTrip(samples, ch.coefs, FirParams(ch, size));
  }

  function EncodeErrors(samples: seq<int>, ch: Channel, setup: Setup, size: nat): Bits
    requires ChannelOk(ch, setup, size) && InRange(samples, size)
  {
    ResidualsRoundTrip(samples, ch, size);
    Rice.RiceEncode(Residuals(samples, ch, size), setup.initialHistory, 0, RiceParams(ch, setup, size))
  }

  // ----- Decoding what was encoded -----

  lemma ReadBack(bits: Bits, p: nat, v: nat, n: nat, end: nat)
    requires 1 <= n <= 32 && v < Pow2(n) && At(bits, p, Be(v, n)) && Padded(bits, end) && p + n <= end
    ensures Read(bits, p, n) == Some(v)
  {
    ValueOfBe(bits, p, v, n);
    PaddedReadable(bits, p, n, end);
  }

  lemma FieldWidths()
    ensures Pow2(1) == 2 && Pow2(2) == 4 && Pow2(3) == 8 && Pow2(4) == 16 && Pow2(5) == 32 && Pow2(8) == 256
    ensures Pow2(12) == 4096 && Pow2(16) == 0x1_0000 && Pow2(32) == 0x1_0000_0000
  {
    Pow2At8();
    Pow2At16();
    Pow2At32();
    Pow2Add(4, 8);
  }

  lemma Read16Back(bits: Bits, p: nat, v: int16, end: nat)
    requires At(bits, p, Be(Low16(v), 16)) && Padded(bits, end) && p + 16 <= end
    ensures Read(bits, p, 16).Some?
    ensures SignExt(Read(bits, p, 16).value, 16) == Wrap16(Read(bits, p, 16).value) == v
  {
    hide At, Padded, Be, Read;
    Pow2At16();
    ReadBack(bits, p, Low16(v), 16, end);
  }

  lemma Last<T>(s: seq<T>)
    requires s != []
    ensures s == s[..|s| - 1] + [s[|s| - 1]]
  {
  }

  lemma {:induction false} CoefsRoundTrip(bits: Bits, p: nat, coefs: seq<int16>, end: nat)
    requires At(bits, p, EncodeWords(coefs)) && Padded(bits, end) && p + 16 * |coefs| <= end
    ensures ReadCoefs(bits, p, |coefs|) == Some(coefs)
  {
    hide At, Padded, Be, Low16, Read, Wrap16;
    if coefs != [] {
      var n := |coefs| - 1;
      AtSplit(bits, p, EncodeWords(coefs[..n]), Be(Low16(coefs[n]), 16));
      CoefsRoundTrip(bits, p, coefs[..n], end);
      Read16Back(bits, p + 16 * n, coefs[n], end);
      Last(coefs);
    }
  }

  lemma ChannelRoundTrip(bits: Bits, p: nat, ch: Channel, setup: Setup, size: nat, end: nat)
    requires ChannelOk(ch, setup, size)
    requires At(bits, p, EncodeChannel(ch)) && Padded(bits, end) && p + ChannelBits(ch) <= end
    ensures ReadChannel(bits, p) == Some(ch)
  {
    hide At, Padded, Be, Read, Rice.Legal;
    var f3 := Be(|ch.coefs|, 5) + EncodeWords(ch.coefs);
    var f2 := Be(ch.riceModifier, 3) + f3;
    var f1 := Be(ch.quant, 4) + f2;
    AtSplit(bits, p, Be(ch.predictionType, 4), f1);
    AtSplit(bits, p + 4, Be(ch.quant, 4), f2);
    AtSplit(bits, p + 8, Be(ch.riceModifier, 3), f3);
    AtSplit(bits, p + 11, Be(|ch.coefs|, 5), EncodeWords(ch.coefs));
    FieldWidths();
    ReadBack(bits, p, ch.predictionType, 4, end);
    ReadBack(bits, p + 4, ch.quant, 4, end);
    ReadBack(bits, p + 8, ch.riceModifier, 3, end);
    ReadBack(bits, p + 11, |ch.coefs|, 5, end);
    CoefsRoundTrip(bits, p + 16, ch.coefs, end);
  }

  lemma EncodeErrorsParts(samples: seq<int>, ch: Channel, setup: Setup, size: nat)
    requires ChannelOk(ch, setup, size) && InRange(samples, size)
    ensures Fir.Legal(FirParams(ch, size)) && Rice.Legal(RiceParams(ch, setup, size))
        && Rice.HistoryOk(setup.initialHistory, 0)
    ensures RiceParams(ch, setup, size).sampleSize == size
    ensures Rice.Encodable(Residuals(samples, ch, size), 0, size)
    ensures EncodeErrors(samples, ch, setup, size)
         == Rice.RiceEncode(Residuals(samples, ch, size), setup.initialHistory, 0, RiceParams(ch, setup, size))
  {
    hide Rice.RiceEncode, Rice.Encodable, Residuals, InRange;
    ResidualsRoundTrip(samples, ch, size);
  }

  lemma RiceErrorsRoundTrip(bits: Bits, p: nat, samples: seq<int>, ch: Channel, setup: Setup, size: nat, end: nat)
    requires ChannelOk(ch, setup, size) && InRange(samples, size)
    requires At(bits, p, EncodeErrors(samples, ch, setup, size))
    requires Padded(bits, end) && p + |EncodeErrors(samples, ch, setup, size)| <= end
    ensures Rice.RiceDecode(bits, p, setup.initialHistory, 0, |samples|, RiceParams(ch, setup, size))
         == Some(Rice.Decoded(Residuals(samples, ch, size), p + |EncodeErrors(samples, ch, setup, size)|))
  {
    hide *;
    EncodeErrorsParts(samples, ch, setup, size);
    Rice.RiceRoundTrip(bits, p, Residuals(samples, ch, size), setup.initialHistory, 0, RiceParams(ch, setup, size),
                       end);
  }

  /** One channel's samples come back, and reading ends where they end. */
  lemma ErrorsRoundTrip(bits: Bits, p: nat, samples: seq<int>, ch: Channel, setup: Setup, size: nat, end: nat)
    requires ChannelOk(ch, setup, size) && InRange(samples, size)
    requires At(bits, p, EncodeErrors(samples, ch, setup, size))
    requires Padded(bits, end) && p + |EncodeErrors(samples, ch, setup, size)| <= end
    ensures ReadErrors(bits, p, |samples|, ch, setup, size)
         == Some(Rice.Decoded(Residuals(samples, ch, size), p + |EncodeErrors(samples, ch, setup, size)|))
    ensures Restored(Residuals(samples, ch, size), ch, size) == samples
  {
    hide Rice.RiceDecode, EncodeErrors, Residuals, Restored, At, Padded, InRange;
    RiceErrorsRoundTrip(bits, p, samples, ch, setup, size, end);
    ResidualsRoundTrip(samples, ch, size);
  }

  // ----- The decoder -----

  method ReadTable(alac: BitReader, n: nat, table: array<int16>)
    requires alac.Valid() && n <= table.Length && ReadCoefs(alac.Bits(), alac.P(), n).Some?
    modifies alac`pos, alac`acc, table
    ensures alac.Valid() && alac.P() == old(alac.P()) + 16 * n
    ensures ReadCoefs(alac.Bits(), old(alac.P()), n) == Some(table[..n])
  {
    hide Wrap16, Readable, Value, BitsOf;
    ghost var bits, p := alac.Bits(), alac.P();
    for i := 0 to n
      invariant alac.Valid() && alac.P() == p + 16 * i
      invariant ReadCoefs(bits, p, i) == Some(table[..i])
    {
      CoefsReadable(bits, p, i + 1, n);
      ghost var before := table[..i];
      var c := alac.ReadBits(16);
      table[i] := Wrap16(c);
      assert table[..i + 1] == before + [Wrap16(c)];
    }
  }

  lemma {:induction false} CoefsReadable(bits: Bits, p: nat, i: nat, n: nat)
    requires i <= n && ReadCoefs(bits, p, n).Some?
    ensures ReadCoefs(bits, p, i).Some?
    decreases n
  {
    if i < n {
      CoefsReadable(bits, p, i, n - 1);
    }
  }

  method ReadChannelHeader(alac: BitReader, table: array<int16>)
      returns (predictionType: nat, quant: nat, riceModifier: nat, coefNum: nat)
    requires alac.Valid() && table.Length == TABLE_SIZE && ReadChannel(alac.Bits(), alac.P()).Some?
    modifies alac`pos, alac`acc, table
    ensures alac.Valid() && coefNum <= TABLE_SIZE
    ensures ReadChannel(alac.Bits(), old(alac.P()))
        == Some(Channel(predictionType, quant, riceModifier, table[..coefNum]))
    ensures alac.P() == old(alac.P()) + 16 + 16 * coefNum
  {
    hide Readable, Value, BitsOf, ReadCoefs;
    predictionType := alac.ReadBits(4);
    quant := alac.ReadBits(4);
    riceModifier := alac.ReadBits(3);
    coefNum := alac.ReadBits(5);
    FieldWidths();
    ReadTable(alac, coefNum, table);
  }

  /** One channel in place: its residuals, then its samples. */
  method DecodeChannel(alac: BitReader, setup: Setup, size: nat, errors: array<int>, samples: array<int>, n: nat,
                       ghost ch: Channel, quant: nat, riceModifier: nat, coefNum: nat, table: array<int16>)
    requires alac.Valid() && errors != samples && errors.Length == samples.Length == setup.maxSamples
        && n <= setup.maxSamples
    requires ChannelOk(ch, setup, size) && table.Length == TABLE_SIZE
    requires coefNum <= TABLE_SIZE && ch == Channel(0, quant, riceModifier, table[..coefNum])
    requires ReadErrors(alac.Bits(), alac.P(), n, ch, setup, size).Some?
    modifies alac`pos, alac`acc, errors, samples, table
    ensures alac.Valid()
    ensures ReadErrors(alac.Bits(), old(alac.P()), n, ch, setup, size) == Some(Rice.Decoded(errors[..n], alac.P()))
    ensures samples[..n] == Restored(errors[..n], ch, size)
  {
    hide Rice.RiceDecode, Fir.Decode, BitsOf;
    var prm := Rice.Params(setup.initialHistory, setup.kModifier, HistoryMult(riceModifier, setup), size);
    Rice.EntropyRiceDecode(alac, errors, n, prm);
    ghost var values := errors[..n];
    Fir.PredictorDecompressFirAdapt(errors, samples, n, table, Fir.Params(size, coefNum, quant));
    assert errors[..n] == values;
  }

  // ----- Packets -----

  /** The bytes of a packet that holds the bits: zeros up to a whole byte, and
      the two bytes a read may look at beyond them. */
  function Pack(bits: Bits): (buf: seq<byte>)
    ensures |buf| == (|bits| + 7) / 8 + 2
  {
    var n := (|bits| + 7) / 8 + 2;
    var padded := bits + Rice.Repeat(false, 8 * n - |bits|);
    seq(n, i requires 0 <= i < n => ByteAt(padded, i))
  }

  function ByteAt(bits: Bits, i: nat): byte
    requires 8 * i + 8 <= |bits|
  {
    ValueBound(bits, 8 * i, 8);
    Pow2At8();
    Value(bits, 8 * i, 8)
  }

  lemma BitOfByteAt(bits: Bits, i: nat, j: nat)
    requires 8 * i + 8 <= |bits| && j < 8
    ensures BitOf(ByteAt(bits, i), j) == bits[8 * i + j]
  {
    hide Pow2, Value;
    ByteParity(bits, i, j);
    ValueSplit(bits, 8 * i, j + 1, 7 - j);
    ValueBound(bits, 8 * i + j + 1, 7 - j);
    DivMod(Value(bits, 8 * i, j + 1), Pow2(7 - j), Value(bits, 8 * i + j + 1, 7 - j));
  }

  lemma ByteParity(bits: Bits, i: nat, j: nat)
    requires 8 * i + 8 <= |bits| && j < 8
    ensures Value(bits, 8 * i, j + 1) % 2 == 1 <==> bits[8 * i + j]
  {
  }

  lemma PackHolds(bits: Bits)
    ensures At(BitsOf(Pack(bits)), 0, bits) && Padded(BitsOf(Pack(bits)), |bits|)
  {
    hide BitOf, ByteAt, Rice.Repeat;
    var n := (|bits| + 7) / 8 + 2;
    var padded := bits + Rice.Repeat(false, 8 * n - |bits|);
    forall k | 0 <= k < |bits|
      ensures BitsOf(Pack(bits))[k] == bits[k]
    {
      BitOfByteAt(padded, k / 8, k % 8);
    }
    assert BitsOf(Pack(bits))[0..|bits|] == bits;
  }
}
