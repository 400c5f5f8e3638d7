/** The compressor engine of `compress_sample`: a one-pole envelope follower,
    a hard-threshold downward compressor, the user gain, truncation to an
    integer and symmetric saturation to the 24-bit range.

    Envelope, gains and coefficients are exact reals (the device uses binary64
    floats). The coefficients the source reads from globals are parameters. */
module Compressor {

  /** Envelope level above which compression starts, in raw 24-bit units. */
  const THRESHOLD: real := 500000.0
  /** Compression ratio above the threshold (3:1). */
  const RATIO: real := 3.0
  /** Saturation limit `0x7FFFFF`; the clamp is symmetric. */
  const MAX_OUT: int := 0x7F_FFFF

  function Magnitude(sample: int): (m: nat)
    ensures m == sample || m == -sample
  {
    if sample < 0 then -sample else sample
  }

  /** One step of the envelope follower: the attack coefficient when the
      magnitude is above the envelope, the release coefficient otherwise.
      At steady state (magnitude equal to the envelope) nothing drifts. */
  function FollowEnvelope(sample: int, envelope: real, attack: real, release: real): (e: real)
    ensures Magnitude(sample) as real == envelope ==> e == envelope
  {
    var m := Magnitude(sample) as real;
    if m > envelope then Toward(envelope, m, attack)
    else Toward(envelope, m, release)
  }

  /** `envelope + coeff * (target - envelope)`: one smoothing step. A zero
      coefficient holds the envelope, a unit coefficient jumps to the target. */
  function Toward(envelope: real, target: real, coeff: real): (e: real)
    ensures coeff == 0.0 ==> e == envelope
    ensures coeff == 1.0 ==> e == target
  {
    envelope + coeff * (target - envelope)
  }

  /** The gain-reduction factor for an envelope: exactly 1 up to the threshold,
      strictly between 1/RATIO and 1 above it. */
  function GainReduction(envelope: real): (g: real)
    ensures envelope <= THRESHOLD ==> g == 1.0
    ensures envelope > THRESHOLD ==> 1.0 / RATIO < g < 1.0
  {
    if envelope > THRESHOLD then
      var overThreshold := envelope / THRESHOLD;
      var compressedRatio := 1.0 + (overThreshold - 1.0) / RATIO;
      GainReductionClosedForm(envelope);
      THRESHOLD * compressedRatio / envelope
    else
      1.0
  }

  /** Python `int(x)` on a float: truncation toward zero. */
  function Trunc(x: real): (r: int)
    ensures x >= 0.0 ==> 0 <= r && r as real <= x < r as real + 1.0
    ensures x < 0.0 ==> r <= 0 && r as real - 1.0 < x <= r as real
  {
    if x >= 0.0 then x.Floor else -((-x).Floor)
  }

  /** Saturation to `[-MAX_OUT, MAX_OUT]`: values already in range pass
      unchanged, and the magnitude never grows. */
  function Saturate(x: int): (r: int)
    ensures -MAX_OUT <= r <= MAX_OUT
    ensures -MAX_OUT <= x <= MAX_OUT ==> r == x
    ensures Magnitude(r) <= Magnitude(x)
  {
    if x > MAX_OUT then MAX_OUT
    else if x < -MAX_OUT then -MAX_OUT
    else x
  }

  /** The `(output, envelope)` pair returned by `compress_sample`. */
  datatype Compressed = Compressed(output: int, envelope: real)

  /** Compresses one sample: the output is always within the symmetric
      24-bit range, so -2^23 is never produced. */
  function CompressSample(sample: int, envelope: real, gain: real, attack: real, release: real): (r: Compressed)
    ensures -MAX_OUT <= r.output <= MAX_OUT
    ensures r.envelope == FollowEnvelope(sample, envelope, attack, release)
  {
    var env := FollowEnvelope(sample, envelope, attack, release);
    Compressed(Attenuate(sample, gain, GainReduction(env)), env)
  }

  /** The last three stages: the total gain `gain * compGain` applied to the
      sample, truncated and clamped. At unit total gain an in-range sample
      passes unchanged. */
  function Attenuate(sample: int, gain: real, compGain: real): (out: int)
    ensures -MAX_OUT <= out <= MAX_OUT
    ensures gain == 1.0 && compGain == 1.0 && -MAX_OUT <= sample <= MAX_OUT ==> out == sample
  {
    var totalGain := gain * compGain;
    Saturate(Trunc(sample as real * totalGain))
  }

  /** Above the threshold the factor equals 1/RATIO + (1 - 1/RATIO) * THRESHOLD / envelope. */
  lemma GainReductionClosedForm(envelope: real)
    requires envelope > THRESHOLD
    ensures THRESHOLD * (1.0 + (envelope / THRESHOLD - 1.0) / RATIO) / envelope
            == 1.0 / RATIO + (1.0 - 1.0 / RATIO) * (THRESHOLD / envelope)
  {
    var t := THRESHOLD / envelope;
    assert 0.0 < t < 1.0;
    calc {
      THRESHOLD * (1.0 + (envelope / THRESHOLD - 1.0) / RATIO) / envelope;
      (THRESHOLD + (envelope - THRESHOLD) / RATIO) / envelope;
      THRESHOLD / envelope + (1.0 - THRESHOLD / envelope) / RATIO;
    }
  }

  lemma NonNegativeProduct(a: real, b: real)
    requires 0.0 <= a && 0.0 <= b
    ensures 0.0 <= a * b
  {
  }

  /** A step of fraction c in [0, 1] from e toward m ends between e and m. */
  lemma StepToward(e: real, m: real, c: real)
    requires 0.0 <= c <= 1.0
    ensures e <= m ==> e <= Toward(e, m, c) <= m
    ensures m <= e ==> m <= Toward(e, m, c) <= e
  {
    var d := if e <= m then m - e else e - m;
    NonNegativeProduct(c, d);
    NonNegativeProduct(1.0 - c, d);
    assert d - c * d == (1.0 - c) * d;
    if e <= m {
      assert Toward(e, m, c) == e + c * d;
    } else {
      assert Toward(e, m, c) == e - c * d;
    }
  }

  /** Dividing by a larger positive number gives a smaller quotient. */
  lemma DivideByLarger(t: real, a: real, b: real)
    requires 0.0 < t && 0.0 < a <= b
    ensures t / b <= t / a
    ensures a < b ==> t / b < t / a
  {
  }

  /** The factor never increases as the envelope grows, and strictly
      decreases once the smaller envelope is above the threshold. */
  lemma GainReductionDecreasing(e1: real, e2: real)
    requires e1 <= e2
    ensures GainReduction(e2) <= GainReduction(e1)
    ensures THRESHOLD < e1 < e2 ==> GainReduction(e2) < GainReduction(e1)
  {
    if e2 > THRESHOLD && e1 > THRESHOLD {
      GainReductionClosedForm(e1);
      GainReductionClosedForm(e2);
      DivideByLarger(THRESHOLD, e1, e2);
    }
  }

  /** With coefficients in [0, 1] the new envelope lies between the old
      envelope and the sample magnitude; so a non-negative envelope stays
      non-negative. */
  lemma EnvelopeBetween(sample: int, envelope: real, attack: real, release: real)
    requires 0.0 <= attack <= 1.0 && 0.0 <= release <= 1.0
    ensures var e := FollowEnvelope(sample, envelope, attack, release);
            var m := Magnitude(sample) as real;
            (envelope <= m ==> envelope <= e <= m) && (m <= envelope ==> m <= e <= envelope)
    ensures envelope >= 0.0 ==> FollowEnvelope(sample, envelope, attack, release) >= 0.0
  {
    var m := Magnitude(sample) as real;
    if m > envelope {
      StepToward(envelope, m, attack);
    } else {
      StepToward(envelope, m, release);
    }
  }

  /** Scaling a sample by a factor in [0, gain] stays within its magnitude
      times the gain, on either side of zero. */
  lemma ScaledWithin(sample: int, k: real, gain: real)
    requires 0.0 <= k <= gain
    ensures var m := Magnitude(sample) as real;
            -(m * gain) <= sample as real * k <= m * gain
  {
    var m := Magnitude(sample) as real;
    NonNegativeProduct(m, gain - k);
    assert m * k <= m * gain;
    assert sample as real * k == m * k || sample as real * k == -(m * k);
  }

  /** Truncation toward zero never moves a value away from zero. */
  lemma TruncWithin(x: real, b: real)
    requires -b <= x <= b
    ensures Magnitude(Trunc(x)) as real <= b
  {
  }

  /** The last three stages with a reduction factor in (0, 1]: the clamped,
      truncated output is no larger than the sample magnitude times the gain. */
  lemma AttenuatedWithin(sample: int, gain: real, g: real)
    requires gain >= 0.0 && 0.0 < g <= 1.0
    ensures Magnitude(Attenuate(sample, gain, g)) as real <= Magnitude(sample) as real * gain
  {
    NonNegativeProduct(gain, 1.0 - g);
    NonNegativeProduct(gain, g);
    ScaledWithin(sample, gain * g, gain);
    TruncWithin(sample as real * (gain * g), Magnitude(sample) as real * gain);
  }

  /** With a non-negative user gain the output magnitude never exceeds the
      sample magnitude times the user gain: compression only attenuates. */
  lemma CompressNeverAmplifies(sample: int, envelope: real, gain: real, attack: real, release: real)
    requires gain >= 0.0
    ensures Magnitude(CompressSample(sample, envelope, gain, attack, release).output) as real
            <= Magnitude(sample) as real * gain
  {
    var g := GainReduction(FollowEnvelope(sample, envelope, attack, release));
    AttenuatedWithin(sample, gain, g);
  }

  /** Below the threshold with unit gain a 24-bit sample in the symmetric
      range passes through unchanged. */
  lemma CompressTransparent(sample: int, envelope: real, attack: real, release: real)
    requires -MAX_OUT <= sample <= MAX_OUT
    requires FollowEnvelope(sample, envelope, attack, release) <= THRESHOLD
    ensures CompressSample(sample, envelope, 1.0, attack, release).output == sample
  {
    var env := FollowEnvelope(sample, envelope, attack, release);
    assert GainReduction(env) == 1.0;
    assert sample as real * (1.0 * 1.0) == sample as real;
    assert Trunc(sample as real) == sample;
  }

  /** A worked case: a sample of 1,000,000 with the envelope already at
      1,000,000 and unit gain is compressed by a factor of exactly 2/3. */
  lemma CompressAtTwiceThreshold(attack: real, release: real)
    ensures CompressSample(1000000, 1000000.0, 1.0, attack, release) == Compressed(666666, 1000000.0)
  {
    assert FollowEnvelope(1000000, 1000000.0, attack, release) == 1000000.0;
    GainReductionClosedForm(1000000.0);
    assert GainReduction(1000000.0) == 2.0 / 3.0;
    assert Trunc(1000000.0 * (1.0 * (2.0 / 3.0))) == 666666;
  }
}
