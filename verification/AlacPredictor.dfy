/** The sign-LMS adaptive FIR predictor of alac.c, and the encoder it inverts. */
module AlacPredictor {
  import opened Arith

  const FIRST_ORDER := 0x1f

  datatype Params = Params(sampleSize: nat, coefNum: nat, quant: nat)

  /** Neither the copy mode nor the first-order mode. */
  predicate Filters(prm: Params) {
    prm.coefNum != 0 && prm.coefNum != FIRST_ORDER
  }

  /** Only the filter needs a quantisation. */
  predicate Legal(prm: Params) {
    1 <= prm.sampleSize <= 32 && prm.coefNum <= FIRST_ORDER && prm.quant <= 31 && (Filters(prm) ==> prm.quant >= 1)
  }

  /** Samples and coefficient table after some residuals. */
  datatype State = State(samples: seq<int>, coefs: seq<int16>)

  function Sign(v: int): int {
    if v < 0 then -1 else if v > 0 then 1 else 0
  }

  // ----- The filter -----

  /** The sum over the first n taps; w is the window of coefNum + 1 samples, the
      oldest first. Products and sums wrap at 32 bits. */
  function FirSum(w: seq<int>, coefs: seq<int16>, n: nat): int32
    requires |w| == |coefs| + 1 && n <= |coefs|
  {
    if n == 0 then 0
    else Wrap32(FirSum(w, coefs, n - 1) + Wrap32(Wrap32(w[|coefs| - (n - 1)] - w[0]) * coefs[n - 1]))
  }

  /** The plain sum of products over the first n taps. */
  function DotProduct(w: seq<int>, coefs: seq<int16>, n: nat): int
    requires |w| == |coefs| + 1 && n <= |coefs|
  {
    if n == 0 then 0 else DotProduct(w, coefs, n - 1) + (w[|coefs| - (n - 1)] - w[0]) * coefs[n - 1]
  }

  /** The wrap-arounds on the way come to one wrap-around at the end. */
  lemma {:induction false} FirSumIsDotProduct(w: seq<int>, coefs: seq<int16>, n: nat)
    requires |w| == |coefs| + 1 && n <= |coefs|
    ensures FirSum(w, coefs, n) == Wrap32(DotProduct(w, coefs, n))
  {
    hide Wrap32;
    if n == 0 {
      WrapZero();
    } else {
      FirSumIsDotProduct(w, coefs, n - 1);
      WrapOfProduct(w[|coefs| - (n - 1)] - w[0], coefs[n - 1]);
      var x := (w[|coefs| - (n - 1)] - w[0]) * coefs[n - 1];
      WrapOfSum(DotProduct(w, coefs, n - 1), x);
    }
  }

  lemma WrapZero()
    ensures Wrap32(0) == 0
  {
    Pow2At32();
  }

  lemma WrapOfProduct(a: int, c: int)
    ensures Wrap32(Wrap32(a) * c) == Wrap32(a * c)
  {
    hide SignExt, Pow2;
    var k := Carry(a, 32);
    assert Wrap32(a) * c == a * c + k * Pow2(32) * c;
    MulAssoc(k, c, Pow2(32));
    assert k * Pow2(32) * c == (k * c) * Pow2(32);
    SignExtCongruent(a * c, k * c, 32);
  }

  lemma WrapOfSum(a: int, b: int)
    ensures Wrap32(Wrap32(a) + Wrap32(b)) == Wrap32(a + b)
  {
    hide SignExt, Pow2;
    var j, k := Carry(a, 32), Carry(b, 32);
    assert Wrap32(a) + Wrap32(b) == (a + b) + (j + k) * Pow2(32);
    SignExtCongruent(a + b, j + k, 32);
  }

  /** What the filter predicts, before the residual is added. */
  function Predicted(w: seq<int>, coefs: seq<int16>, quant: nat): int
    requires |w| == |coefs| + 1 && 1 <= quant <= 31
  {
    Wrap32(Pow2(quant - 1) + FirSum(w, coefs, |coefs|)) / Pow2(quant) + w[0]
  }

  /** What the filter makes of the sum, for every sum: with the rounding half
      added and wrapped once to 32 bits it is divided by 2^quant, rounding down. */
  lemma PredictedOfSum(w: seq<int>, coefs: seq<int16>, quant: nat)
    requires |w| == |coefs| + 1 && 1 <= quant <= 31
    ensures var step, p := Pow2(quant), Predicted(w, coefs, quant) - w[0];
      step * p <= Wrap32(DotProduct(w, coefs, |coefs|) + Pow2(quant - 1)) < step * p + step
  {
    hide Wrap32, Pow2;
    var sum, half, step := DotProduct(w, coefs, |coefs|), Pow2(quant - 1), Pow2(quant);
    FirSumIsDotProduct(w, coefs, |coefs|);
    Pow2Mono(quant - 1, 31);
    Pow2At32();
    WrapOfSmall(half, quant - 1);
    WrapOfSum(half, sum);
    var s := Wrap32(half + sum);
    var q, r := s / step, s % step;
    assert s == q * step + r;
  }

  lemma WrapOfSmall(v: int, n: nat)
    requires v == Pow2(n) && n <= 30
    ensures Wrap32(v) == v
  {
    hide Pow2;
    Pow2At32();
    Pow2Mono(n, 30);
    assert Pow2(31) == 2 * Pow2(30) by { Pow2Double(30); }
    SignExtIdentity(v, 32);
  }

  /** So where nothing leaves 32 bits the prediction is the oldest sample of the
      window plus the filter sum over 2^quant, to the nearest integer, half up. */
  lemma PredictedIsNearest(w: seq<int>, coefs: seq<int16>, quant: nat)
    requires |w| == |coefs| + 1 && 1 <= quant <= 31
    requires -0x8000_0000 <= DotProduct(w, coefs, |coefs|) + Pow2(quant - 1) < 0x8000_0000
    ensures var sum, half := DotProduct(w, coefs, |coefs|), Pow2(quant - 1);
      sum - half < 2 * half * (Predicted(w, coefs, quant) - w[0]) <= sum + half
  {
    hide Wrap32, DotProduct, Predicted;
    PredictedOfSum(w, coefs, quant);
    Wrap32InRange(DotProduct(w, coefs, |coefs|) + Pow2(quant - 1));
    Pow2Double(quant - 1);
  }

  lemma Wrap32InRange(v: int)
    requires -0x8000_0000 <= v < 0x8000_0000
    ensures Wrap32(v) == v
  {
    Pow2At32();
    SignExtIdentity(v, 32);
  }

  // ----- The adaptation -----

  /** What is left of the error after one coefficient has moved. */
  function Remaining(error: int, val: int, quant: nat, taps: int): int {
    Wrap32(error - Wrap32(val / Pow2(quant) * taps))
  }

  /** Moves the coefficients i, i - 1, .. against the sign of the error, while
      the part of the error that remains keeps its sign. */
  function Adapt(w: seq<int>, coefs: seq<int16>, error: int, quant: nat, i: int): (r: seq<int16>)
    requires |w| == |coefs| + 1 && -1 <= i < |coefs|
    ensures |r| == |coefs|
    decreases i + 1
  {
    if i < 0 || error == 0 then coefs
    else
      var val := Wrap32(w[0] - w[|coefs| - i]);
      var sign := Sign(error) * Sign(val);
      var error' := Remaining(error, Wrap32(sign * val), quant, |coefs| - i);
      var coefs' := coefs[i := Wrap16(coefs[i] - sign)];
      if Sign(error') == Sign(error) then Adapt(w, coefs', error', quant, i - 1) else coefs'
  }

  // ----- Decoding and encoding one sample -----

  predicate Adaptive(n: nat, prm: Params) {
    Filters(prm) && n > prm.coefNum
  }

  predicate StateOk(st: State, prm: Params) {
    |st.coefs| == prm.coefNum
  }

  /** The reference from which the next residual is measured, if there is one:
      the first sample and the copy mode have none. */
  function Reference(st: State, prm: Params): int
    requires Legal(prm) && StateOk(st, prm)
  {
    var n := |st.samples|;
    if n == 0 || prm.coefNum == 0 then 0
    else if Adaptive(n, prm) then Predicted(st.samples[n - prm.coefNum - 1..], st.coefs, prm.quant)
    else st.samples[n - 1]
  }

  function NextCoefs(st: State, error: int, prm: Params): (coefs: seq<int16>)
    requires Legal(prm) && StateOk(st, prm)
    ensures |coefs| == |st.coefs|
  {
    var n := |st.samples|;
    if Adaptive(n, prm) then Adapt(st.samples[n - prm.coefNum - 1..], st.coefs, error, prm.quant, prm.coefNum - 1)
    else st.coefs
  }

  function NextSample(st: State, error: int, prm: Params): int
    requires Legal(prm) && StateOk(st, prm)
  {
    if |st.samples| == 0 || prm.coefNum == 0 then error
    else SignExt(Wrap32(Reference(st, prm) + error), prm.sampleSize)
  }

  function Step(st: State, error: int, prm: Params): State
    requires Legal(prm) && StateOk(st, prm)
  {
    State(st.samples + [NextSample(st, error, prm)], NextCoefs(st, error, prm))
  }

  function Decode(errors: seq<int>, coefs: seq<int16>, prm: Params): (st: State)
    requires Legal(prm) && |coefs| == prm.coefNum
    ensures StateOk(st, prm) && |st.samples| == |errors|
  {
    if errors == [] then State([], coefs)
    else
      var n := |errors| - 1;
      Step(Decode(errors[..n], coefs, prm), errors[n], prm)
  }

  function Residual(st: State, sample: int, prm: Params): int
    requires Legal(prm) && StateOk(st, prm)
  {
    if |st.samples| == 0 || prm.coefNum == 0 then sample
    else SignExt(sample - Reference(st, prm), prm.sampleSize)
  }

  /** The mirrored encoder: residuals, and the state it shares with the decoder. */
  datatype Mirror = Mirror(errors: seq<int>, state: State)

  function Encode(samples: seq<int>, coefs: seq<int16>, prm: Params): (m: Mirror)
    requires Legal(prm) && |coefs| == prm.coefNum
    ensures StateOk(m.state, prm) && m.state.samples == samples && |m.errors| == |samples|
  {
    if samples == [] then Mirror([], State([], coefs))
    else
      var n := |samples| - 1;
      var m := Encode(samples[..n], coefs, prm);
      var error := Residual(m.state, samples[n], prm);
      Mirror(m.errors + [error], State(samples, NextCoefs(m.state, error, prm)))
  }

  /** How a sample follows from a residual, mode by mode: copied in copy mode and
      at the start, otherwise added to a reference and cut to the sample size.
      The reference is the previous sample in first-order mode (31 coefficients)
      and during warm-up, and then the prediction from the last samples. */
  lemma SampleMeaning(st: State, error: int, prm: Params)
    requires Legal(prm) && StateOk(st, prm)
    ensures var n, x := |st.samples|, NextSample(st, error, prm);
      if n == 0 || prm.coefNum == 0 then x == error
      else if prm.coefNum == 31 || n <= prm.coefNum then x == SignExt(st.samples[n - 1] + error, prm.sampleSize)
      else
        && prm.quant >= 1
        && x == SignExt(Predicted(st.samples[n - prm.coefNum - 1..], st.coefs, prm.quant) + error, prm.sampleSize)
  {
    hide Predicted, Wrap32, SignExt;
    WrapThenExtend(Reference(st, prm) + error, prm.sampleSize);
  }

  /** Coefficients move only behind the filter, over the same window. */
  lemma OnlyFilterAdapts(st: State, error: int, prm: Params)
    requires Legal(prm) && StateOk(st, prm)
    ensures var n := |st.samples|;
      NextCoefs(st, error, prm)
        == if prm.coefNum == 0 || prm.coefNum == 31 || n <= prm.coefNum then st.coefs
           else Adapt(st.samples[n - prm.coefNum - 1..], st.coefs, error, prm.quant, prm.coefNum - 1)
  {
    hide Adapt;
  }

  lemma StepInverts(st: State, sample: int, prm: Params)
    requires Legal(prm) && StateOk(st, prm) && Signed(sample, prm.sampleSize)
    ensures NextSample(st, Residual(st, sample, prm), prm) == sample
    ensures Signed(Residual(st, sample, prm), prm.sampleSize)
  {
    hide SignExt, Wrap32, Signed, Predicted;
    var a := Reference(st, prm);
    SignExtRange(sample - a, prm.sampleSize);
    SignExtRestores(sample, a, prm.sampleSize);
    WrapThenExtend(a + SignExt(sample - a, prm.sampleSize), prm.sampleSize);
  }

  lemma WrapThenExtend(v: int, n: nat)
    requires 1 <= n <= 32
    ensures SignExt(Wrap32(v), n) == SignExt(v, n)
  {
    hide SignExt;
    SignExtNarrows(v, 32, n);
  }

  /** Decoding the encoder's residuals gives the samples back, with the two
      coefficient tables equal after every step. */
  lemma {:induction false} PredictorRoundTrip(samples: seq<int>, coefs: seq<int16>, prm: Params)
    requires Legal(prm) && |coefs| == prm.coefNum
    requires forall i :: 0 <= i < |samples| ==> Signed(samples[i], prm.sampleSize)
    ensures Decode(Encode(samples, coefs, prm).errors, coefs, prm) == Encode(samples, coefs, prm).state
    ensures Decode(Encode(samples, coefs, prm).errors, coefs, prm).samples == samples
    ensures forall i :: 0 <= i < |samples| ==> Signed(Encode(samples, coefs, prm).errors[i], prm.sampleSize)
  {
    hide Residual, NextSample, NextCoefs, Signed;
    if samples != [] {
      var n := |samples| - 1;
      var m := Encode(samples[..n], coefs, prm);
      PredictorRoundTrip(samples[..n], coefs, prm);
      StepInverts(m.state, samples[n], prm);
      assert Encode(samples, coefs, prm).errors[..n] == m.errors;
      assert samples == samples[..n] + [samples[n]];
    }
  }

  /** What coefficient j takes off the error: the difference between the oldest
      sample and the one the coefficient belongs to, with the sign of the error,
      over 2^quant rounded down, once for every coefficient from j on. */
  function Share(w: seq<int>, n: nat, positive: bool, quant: nat, j: nat): int
    requires |w| == n + 1 && j < n
  {
    var difference: int := Wrap32(w[0] - w[n - j]);
    var size: int := if difference < 0 then -difference else difference;
    Wrap32(if positive then size else -size) / Pow2(quant) * (n - j)
  }

  /** What the coefficients from j to i take off together. */
  function Spent(w: seq<int>, n: nat, positive: bool, quant: nat, j: nat, i: int): int
    requires |w| == n + 1 && j <= i + 1 <= n
    decreases i + 1 - j
  {
    if j == i + 1 then 0 else Share(w, n, positive, quant, i) + Spent(w, n, positive, quant, j, i - 1)
  }

  lemma RemainingIsShare(w: seq<int>, n: nat, error: int, quant: nat, i: nat)
    requires |w| == n + 1 && i < n && error != 0
    ensures var val := Wrap32(w[0] - w[n - i]);
      Remaining(error, Wrap32(Sign(error) * Sign(val) * val), quant, n - i)
        == Wrap32(error - Share(w, n, error > 0, quant, i))
  {
    hide Wrap32;
    var x := Share(w, n, error > 0, quant, i);
    var val: int := Wrap32(w[0] - w[n - i]);
    var size: int := if val < 0 then -val else val;
    assert Sign(error) * Sign(val) * val == if error > 0 then size else -size;
    WrapOfDifference(error, x);
  }

  lemma WrapOfDifference(a: int, b: int)
    ensures Wrap32(a - Wrap32(b)) == Wrap32(a - b)
    ensures Wrap32(Wrap32(a) - b) == Wrap32(a - b)
  {
    hide SignExt, Pow2;
    var j, k := Carry(a, 32), Carry(b, 32);
    assert a - Wrap32(b) == (a - b) + (-k) * Pow2(32);
    SignExtCongruent(a - b, -k, 32);
    SignExtCongruent(a - b, j, 32);
  }

  /** Something of the error is left, with its sign, after the coefficients from j to i. */
  predicate Lasts(w: seq<int>, n: nat, error: int, quant: nat, j: nat, i: int)
    requires |w| == n + 1 && j <= i + 1 <= n
  {
    var left := Wrap32(error - Spent(w, n, error > 0, quant, j, i));
    if error > 0 then left > 0 else left < 0
  }

  /** The first coefficient to move, i, spends first. */
  lemma LastsStep(w: seq<int>, n: nat, error: int, quant: nat, j: nat, i: nat)
    requires |w| == n + 1 && j <= i < n && error != 0
    ensures var val := Wrap32(w[0] - w[n - i]);
      var error' := Remaining(error, Wrap32(Sign(error) * Sign(val) * val), quant, n - i);
      && (Sign(error') == Sign(error) <==> Lasts(w, n, error, quant, i, i))
      && (Sign(error') == Sign(error) ==> (Lasts(w, n, error', quant, j, i - 1) <==> Lasts(w, n, error, quant, j, i)))
  {
    hide Wrap32, Share, Remaining;
    RemainingIsShare(w, n, error, quant, i);
    var first := Share(w, n, error > 0, quant, i);
    WrapOfDifference(error - first, Spent(w, n, error > 0, quant, j, i - 1));
    assert Spent(w, n, error > 0, quant, i, i) == first;
  }

  /** The meaning of the adaptation: a suffix of the table moves, each of its
      coefficients one step against the sign of error times difference, and the
      rest stays. It begins where the error is used up: every shorter suffix
      leaves something of it, the suffix itself nothing, or the table ends. */
  lemma {:induction false} AdaptMovesSuffix(w: seq<int>, coefs: seq<int16>, error: int, quant: nat, i: int)
      returns (from: int)
    requires |w| == |coefs| + 1 && -1 <= i < |coefs|
    ensures 0 <= from <= i + 1
    ensures error == 0 ==> from == i + 1
    ensures i >= 0 && error != 0 ==> from <= i
    ensures forall j :: 0 <= j < |coefs| ==>
      Adapt(w, coefs, error, quant, i)[j] ==
        if from <= j <= i then Wrap16(coefs[j] - Sign(error) * Sign(Wrap32(w[0] - w[|coefs| - j]))) else coefs[j]
    ensures error != 0 ==> forall j: nat :: from < j <= i ==> Lasts(w, |coefs|, error, quant, j, i)
    ensures error != 0 && 0 < from <= i ==> !Lasts(w, |coefs|, error, quant, from, i)
    decreases i + 1
  {
    hide Wrap16, Wrap32, Sign, Remaining, Lasts;
    if i < 0 || error == 0 {
      from := i + 1;
    } else {
      var val := Wrap32(w[0] - w[|coefs| - i]);
      var sign := Sign(error) * Sign(val);
      var error' := Remaining(error, Wrap32(sign * val), quant, |coefs| - i);
      var coefs' := coefs[i := Wrap16(coefs[i] - sign)];
      if Sign(error') == Sign(error) {
        from := AdaptMovesSuffix(w, coefs', error', quant, i - 1);
        assert Sign(error') != 0 by { SignOfNonzero(error); SignOfNonzero(error'); }
        SignOfNonzero(error');
        forall j: nat | from < j <= i
          ensures Lasts(w, |coefs|, error, quant, j, i)
        {
          LastsStep(w, |coefs|, error, quant, j, i);
        }
        LastsStep(w, |coefs|, error, quant, from, i);
      } else {
        from := i;
        LastsStep(w, |coefs|, error, quant, i, i);
      }
    }
  }

  lemma SignOfNonzero(v: int)
    ensures Sign(v) == 0 <==> v == 0
  {
  }

  // ----- The decoder in place -----

  lemma {:induction false} DecodePrefix(errors: seq<int>, n: nat, coefs: seq<int16>, prm: Params)
    requires Legal(prm) && |coefs| == prm.coefNum && n <= |errors|
    ensures Decode(errors[..n], coefs, prm).samples == Decode(errors, coefs, prm).samples[..n]
  {
    hide NextSample, NextCoefs;
    if n == |errors| {
      assert errors[..n] == errors;
    } else {
      var last := |errors| - 1;
      assert errors[..last][..n] == errors[..n];
      DecodePrefix(errors[..last], n, coefs, prm);
    }
  }

  lemma {:induction false} WarmUpKeepsCoefs(errors: seq<int>, coefs: seq<int16>, prm: Params)
    requires Legal(prm) && |coefs| == prm.coefNum
    requires !Filters(prm) || |errors| <= prm.coefNum + 1
    ensures Decode(errors, coefs, prm).coefs == coefs
  {
    if errors != [] {
      WarmUpKeepsCoefs(errors[..|errors| - 1], coefs, prm);
    }
  }

  lemma DecodeStep(errors: seq<int>, n: nat, coefs: seq<int16>, prm: Params)
    requires Legal(prm) && |coefs| == prm.coefNum && n < |errors|
    ensures Decode(errors[..n + 1], coefs, prm) == Step(Decode(errors[..n], coefs, prm), errors[n], prm)
  {
    hide Step;
    assert errors[..n + 1][..n] == errors[..n];
  }

  lemma AdaptNothing(w: seq<int>, coefs: seq<int16>, error: int, quant: nat, i: int)
    requires |w| == |coefs| + 1 && -1 <= i < |coefs| && (i < 0 || error == 0)
    ensures Adapt(w, coefs, error, quant, i) == coefs
  {
  }

  lemma AdaptStep(w: seq<int>, coefs: seq<int16>, error: int, quant: nat, i: int)
    requires |w| == |coefs| + 1 && 0 <= i < |coefs| && error != 0
    ensures var val := Wrap32(w[0] - w[|coefs| - i]);
      var sign := Sign(error) * Sign(val);
      var error' := Remaining(error, Wrap32(val * sign), quant, |coefs| - i);
      var coefs' := coefs[i := Wrap16(coefs[i] - sign)];
      Adapt(w, coefs, error, quant, i)
        == if Sign(error') == Sign(error) then Adapt(w, coefs', error', quant, i - 1) else coefs'
  {
    hide Wrap16, Wrap32, Remaining, Sign;
    var val := Wrap32(w[0] - w[|coefs| - i]);
    assert val * (Sign(error) * Sign(val)) == Sign(error) * Sign(val) * val;
  }

  /** The adaptation loop for a positive residual, on the window of `out` at b. */
  method AdaptPositive(out: array<int>, b: nat, coefs: array<int16>, error: int, coefNum: nat, quant: nat)
    requires 1 <= coefNum <= coefs.Length && b + coefNum + 1 <= out.Length
    requires error > 0
    modifies coefs
    ensures coefs[..coefNum] == Adapt(out[b..b + coefNum + 1], old(coefs[..coefNum]), error, quant, coefNum - 1)
  {
    hide Wrap16, Wrap32, Remaining, Adapt;
    ghost var w, table := out[b..b + coefNum + 1], coefs[..coefNum];
    var errorVal := error;
    var i := coefNum - 1;
    while i >= 0 && errorVal > 0
      invariant -1 <= i < coefNum
      invariant (if errorVal > 0 then Adapt(w, coefs[..coefNum], errorVal, quant, i) else coefs[..coefNum])
             == Adapt(w, table, error, quant, coefNum - 1)
    {
      var val := Wrap32(out[b] - out[b + coefNum - i]);
      var sign := Sign(val);
      ghost var before := coefs[..coefNum];
      AdaptStep(w, before, errorVal, quant, i);
      coefs[i] := Wrap16(coefs[i] - sign);
      assert coefs[..coefNum] == before[i := Wrap16(before[i] - sign)];
      val := Wrap32(val * sign);
      errorVal := Remaining(errorVal, val, quant, coefNum - i);
      i := i - 1;
    }
    if i < 0 {
      AdaptNothing(w, coefs[..coefNum], errorVal, quant, i);
    }
  }

  /** The adaptation loop for a negative residual. */
  method AdaptNegative(out: array<int>, b: nat, coefs: array<int16>, error: int, coefNum: nat, quant: nat)
    requires 1 <= coefNum <= coefs.Length && b + coefNum + 1 <= out.Length
    requires error < 0
    modifies coefs
    ensures coefs[..coefNum] == Adapt(out[b..b + coefNum + 1], old(coefs[..coefNum]), error, quant, coefNum - 1)
  {
    hide Wrap16, Wrap32, Remaining, Adapt;
    ghost var w, table := out[b..b + coefNum + 1], coefs[..coefNum];
    var errorVal := error;
    var i := coefNum - 1;
    while i >= 0 && errorVal < 0
      invariant -1 <= i < coefNum
      invariant (if errorVal < 0 then Adapt(w, coefs[..coefNum], errorVal, quant, i) else coefs[..coefNum])
             == Adapt(w, table, error, quant, coefNum - 1)
    {
      var val := Wrap32(out[b] - out[b + coefNum - i]);
      var sign := -Sign(val);
      ghost var before := coefs[..coefNum];
      AdaptStep(w, before, errorVal, quant, i);
      coefs[i] := Wrap16(coefs[i] - sign);
      assert coefs[..coefNum] == before[i := Wrap16(before[i] - sign)];
      val := Wrap32(val * sign);
      errorVal := Remaining(errorVal, val, quant, coefNum - i);
      i := i - 1;
    }
    if i < 0 {
      AdaptNothing(w, coefs[..coefNum], errorVal, quant, i);
    }
  }

  /** The filter loop for the sample that follows the window starting at b. */
  method FilterSum(out: array<int>, b: nat, coefs: array<int16>, coefNum: nat) returns (sum: int)
    requires coefNum <= coefs.Length && b + coefNum + 1 <= out.Length
    ensures sum == FirSum(out[b..b + coefNum + 1], coefs[..coefNum], coefNum)
  {
    hide Wrap32;
    sum := 0;
    for j := 0 to coefNum
      invariant sum == FirSum(out[b..b + coefNum + 1], coefs[..coefNum], j)
    {
      sum := Wrap32(sum + Wrap32(Wrap32(out[b + coefNum - j] - out[b]) * coefs[j]));
    }
  }

  lemma {:induction false} CopyMode(errors: seq<int>, coefs: seq<int16>, prm: Params)
    requires Legal(prm) && prm.coefNum == 0 && coefs == []
    ensures Decode(errors, coefs, prm) == State(errors, coefs)
  {
    if errors != [] {
      CopyMode(errors[..|errors| - 1], coefs, prm);
    }
  }

  /** In the first-order and warm-up modes a residual is the difference from
      the previous sample. */
  lemma DifferenceStep(errors: seq<int>, n: nat, coefs: seq<int16>, prm: Params)
    requires Legal(prm) && |coefs| == prm.coefNum && 1 <= n < |errors|
    requires prm.coefNum == FIRST_ORDER || 0 < n <= prm.coefNum
    ensures var xs := Decode(errors[..n], coefs, prm).samples;
      Decode(errors[..n + 1], coefs, prm).samples == xs + [SignExt(Wrap32(xs[n - 1] + errors[n]), prm.sampleSize)]
  {
    hide Wrap32, SignExt, Predicted;
    DecodeStep(errors, n, coefs, prm);
  }

  lemma FirstStep(errors: seq<int>, coefs: seq<int16>, prm: Params)
    requires Legal(prm) && |coefs| == prm.coefNum && errors != []
    ensures Decode(errors[..1], coefs, prm) == State([errors[0]], coefs)
  {
    hide Wrap32, SignExt, Predicted;
    DecodeStep(errors, 0, coefs, prm);
  }

  lemma Snoc(out: array<int>, i: nat)
    requires i < out.Length
    ensures out[..i + 1] == out[..i] + [out[i]]
  {
  }

  method PredictorDecompressFirAdapt(errors: array<int>, out: array<int>, outputSize: nat, coefs: array<int16>,
                                     prm: Params)
    requires Legal(prm) && prm.coefNum <= coefs.Length
    requires errors != out && errors.Length == out.Length >= 1 && outputSize <= out.Length
    requires prm.coefNum == FIRST_ORDER || prm.coefNum < out.Length
    modifies out, coefs
    ensures out[..outputSize] == Decode(errors[..outputSize], old(coefs[..prm.coefNum]), prm).samples
    ensures outputSize >= 1 ==>
      coefs[..prm.coefNum] == Decode(errors[..outputSize], old(coefs[..prm.coefNum]), prm).coefs
  {
    hide Wrap32, SignExt, Predicted, Adapt, Step, Decode, Legal;
    var num := prm.coefNum;
    ghost var errs, table := errors[..], old(coefs[..prm.coefNum]);
    ghost var wanted := errs[..outputSize];
    assert errors[..outputSize] == wanted;
    out[0] := errors[0];
    FirstStep(errs, table, prm);
    if num == 0 {
      CopyMode(wanted, table, prm);
      if outputSize <= 1 { return; }
      forall i | 1 <= i < outputSize {
        out[i] := errors[i];
      }
      assert out[..outputSize] == wanted && errors[..outputSize] == wanted;
      return;
    }
    if num == FIRST_ORDER {
      WarmUpKeepsCoefs(wanted, table, prm);
      if outputSize <= 1 { return; }
      Differences(errors, out, outputSize, prm, table);
      assert errors[..outputSize] == wanted;
      return;
    }
    Differences(errors, out, num + 1, prm, table);
    WarmUpKeepsCoefs(errs[..num + 1], table, prm);
    if outputSize <= num + 1 {
      assert errs[..num + 1][..outputSize] == wanted;
      DecodePrefix(errs[..num + 1], outputSize, table, prm);
      WarmUpKeepsCoefs(wanted, table, prm);
    } else {
      GeneralCase(errors, out, outputSize, coefs, prm, table);
    }
  }

  /** The first-order loop and the warm-up loop: each residual is a difference. */
  method Differences(errors: array<int>, out: array<int>, n: nat, prm: Params, ghost table: seq<int16>)
    requires Legal(prm) && |table| == prm.coefNum && errors != out
    requires 1 <= n <= out.Length == errors.Length
    requires prm.coefNum == FIRST_ORDER || n <= prm.coefNum + 1
    requires out[..1] == Decode(errors[..1], table, prm).samples
    modifies out
    ensures out[..n] == Decode(errors[..n], table, prm).samples
  {
    hide Wrap32, SignExt, Decode;
    ghost var errs := errors[..];
    assert errors[..1] == errs[..1];
    for i := 0 to n - 1
      invariant out[..i + 1] == Decode(errs[..i + 1], table, prm).samples
    {
      DifferenceStep(errs, i + 1, table, prm);
      var val := Wrap32(out[i] + errors[i + 1]);
      out[i + 1] := SignExt(val, prm.sampleSize);
      Snoc(out, i + 1);
    }
    assert errors[..n] == errs[..n];
  }

  /** The sliding filter: `b` is where the moving output pointer stands. */
  method GeneralCase(errors: array<int>, out: array<int>, outputSize: nat, coefs: array<int16>, prm: Params,
                     ghost table: seq<int16>)
    requires Legal(prm) && prm.coefNum <= coefs.Length && |table| == prm.coefNum
    requires errors != out && errors.Length == out.Length && prm.coefNum + 1 <= outputSize <= out.Length
    requires Filters(prm)
    requires State(out[..prm.coefNum + 1], coefs[..prm.coefNum]) == Decode(errors[..prm.coefNum + 1], table, prm)
    modifies out, coefs
    ensures State(out[..outputSize], coefs[..prm.coefNum]) == Decode(errors[..outputSize], table, prm)
  {
    hide Wrap32, SignExt, Adapt, Decode, FirSum;
    var num := prm.coefNum;
    ghost var errs := errors[..];
    var b := 0;
    for i := num + 1 to outputSize
      invariant b == i - num - 1
      invariant State(out[..i], coefs[..num]) == Decode(errs[..i], table, prm)
    {
      DecodeStep(errs, i, table, prm);
      ghost var st := State(out[..i], coefs[..num]);
      assert st.samples[i - num - 1..] == out[b..b + num + 1];
      var errorVal := errors[i];
      var sum := FilterSum(out, b, coefs, num);
      var outVal := Wrap32(Pow2(prm.quant - 1) + sum) / Pow2(prm.quant);
      outVal := SignExt(Wrap32(outVal + out[b] + errorVal), prm.sampleSize);
      out[b + num + 1] := outVal;
      Snoc(out, i);
      if errorVal > 0 {
        AdaptPositive(out, b, coefs, errorVal, num, prm.quant);
      } else if errorVal < 0 {
        AdaptNegative(out, b, coefs, errorVal, num, prm.quant);
      } else {
        AdaptNothing(st.samples[i - num - 1..], st.coefs, 0, prm.quant, num - 1);
      }
      assert out[b..b + num + 1] == st.samples[i - num - 1..];
      b := b + 1;
    }
  }
}
