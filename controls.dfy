/** The control mapping of `read_pots`: two 16-bit potentiometer readings
    become the user gain and the smoothing coefficient used for both attack
    and release. The readings are parameters; reading the ADC is not modelled.
    Arithmetic is exact over the reals. */
module Controls {

  /** A `read_u16` reading. */
  type Reading = r: int | 0 <= r <= 0xFFFF

  const FULL_SCALE: real := 65535.0
  const MIN_GAIN: real := 0.5
  const MAX_GAIN: real := 8.0
  const MIN_TIME_MS: real := 5.0
  const MAX_TIME_MS: real := 200.0
  const SAMPLE_RATE: real := 16000.0

  /** `raw / 65535.0`, within [0, 1]. */
  function Normalized(raw: Reading): (n: real)
    ensures 0.0 <= n <= 1.0
    ensures n == 0.0 <==> raw == 0
    ensures n == 1.0 <==> raw == 0xFFFF
  {
    raw as real / FULL_SCALE
  }

  /** Linear map of the gain pot onto [MIN_GAIN, MAX_GAIN]; the two ends of the
      pot give the two ends of the range exactly. */
  function GainFromReading(raw: Reading): (g: real)
    ensures MIN_GAIN <= g <= MAX_GAIN
    ensures raw == 0 ==> g == MIN_GAIN
    ensures raw == 0xFFFF ==> g == MAX_GAIN
  {
    MIN_GAIN + Normalized(raw) * (MAX_GAIN - MIN_GAIN)
  }

  /** Linear map of the compression pot onto [MIN_TIME_MS, MAX_TIME_MS]. */
  function TimeMsFromReading(raw: Reading): (t: real)
    ensures MIN_TIME_MS <= t <= MAX_TIME_MS
    ensures raw == 0 ==> t == MIN_TIME_MS
    ensures raw == 0xFFFF ==> t == MAX_TIME_MS
  {
    MIN_TIME_MS + Normalized(raw) * (MAX_TIME_MS - MIN_TIME_MS)
  }

  /** Samples in a time constant: `(time_ms / 1000.0) * SAMPLE_RATE`. */
  function SamplesPerTime(timeMs: real): (n: real)
    ensures MIN_TIME_MS <= timeMs <= MAX_TIME_MS ==> 80.0 <= n <= 3200.0
  {
    (timeMs / 1000.0) * SAMPLE_RATE
  }

  /** The smoothing coefficient `1.0 / samples_per_time` for a compression
      reading: always within [1/3200, 1/80], so in (0, 1]. */
  function Coefficient(raw: Reading): (c: real)
    ensures 1.0 / 3200.0 <= c <= 1.0 / 80.0
  {
    var n := SamplesPerTime(TimeMsFromReading(raw));
    ReciprocalBetween(n, 80.0, 3200.0);
    1.0 / n
  }

  lemma ReciprocalBetween(n: real, lo: real, hi: real)
    requires 0.0 < lo <= n <= hi
    ensures 1.0 / hi <= 1.0 / n <= 1.0 / lo
  {
  }

  /** Turning either pot up never lowers what it controls: the gain grows and
      the coefficient shrinks (a longer time constant). */
  lemma {:induction false} ControlsMonotone(r1: Reading, r2: Reading)
    requires r1 <= r2
    ensures GainFromReading(r1) <= GainFromReading(r2)
    ensures Coefficient(r2) <= Coefficient(r1)
  {
    var t1, t2 := TimeMsFromReading(r1), TimeMsFromReading(r2);
    assert Normalized(r1) <= Normalized(r2);
    assert t1 <= t2;
    ReciprocalBetween(SamplesPerTime(t1), SamplesPerTime(t1), SamplesPerTime(t2));
  }
}
