# Digital hearing aid: the per-sample processing chain

This project models the signal path of `pico_hearing_aid_digital.py`, a
MicroPython hearing aid. The device reads stereo I2S frames from two
microphones, applies a user gain and a downward compressor to each sample,
and writes the result to a DAC. Five modules make up the model:

- `Codec` (`codec.dfy`): the sample codec. Each channel is a 32-bit
  little-endian word that holds a signed 24-bit sample in its upper three
  bytes. It is decoded by assembling the word, fixing its sign and shifting
  right by 8. It is encoded by shifting left by 8, wrapping negatives
  modulo 2^32 and splitting the word into bytes. Python's unbounded
  integers are modelled as `int`: `>> 8` is Dafny's `/ 0x100`, and `& 0xFF`
  is `% 0x100`.
- `Compressor` (`compressor.dfy`): `compress_sample`. It has four stages:
  - a one-pole envelope follower with separate attack and release
    coefficients;
  - a hard-threshold gain reduction with ratio 3:1 above 500000;
  - the user gain, then truncation toward zero as Python `int()` does;
  - symmetric saturation to ±0x7FFFFF.

  The envelope, gains and coefficients are exact reals.
- `Controls` (`controls.dfy`): the mapping of `read_pots`. A 16-bit gain
  reading becomes a gain in [0.5, 8]. A 16-bit compression reading becomes a
  time constant in [5, 200] ms, and then one smoothing coefficient
  `1 / samples_per_time`.
- `Frames` (`frames.dfy`): one pass of the frame loop as a function of the
  input buffer, the two envelopes and the settings. Frames are decoded in
  order, each channel is compressed through its own envelope, and the
  results are encoded back. Lemmas about the pass:
  - every output frame is well formed;
  - envelopes stay non-negative;
  - quiet input at unit gain passes through byte for byte.
- `RealTimeLoop` (`loop.dfy`): one iteration of the `while True` loop. The
  class `HearingAid` holds the 512-byte `audio_buffer` as an array, plus the
  two envelopes, the current gain, both coefficients and `loop_count`.
  - `ProcessChunk` takes the byte count returned by `readinto` and the two
    potentiometer readings as parameters.
  - It rewrites the buffer in place, frame by frame, with a loop.
  - It is proved to leave exactly the bytes of the `Frames` pass, followed by
    the untouched tail, and to return what is written to the DAC.

`read_pots` does not clamp the normalised reading. A `read_u16` reading is
always in 0..65535 (`Controls.Reading`), so `raw / 65535.0` lies in [0, 1]
(`Controls.Normalized`). `num_read` is at most 512, the size of
`audio_buffer`, and the `Frames` functions take buffers of any length.

## Model

| member | source | states |
|---|---|---|
| Codec.Word | pico_hearing_aid_digital.py:191-195 | the OR of the four shifted bytes is a word in [0, 2^32) whose low byte is the first byte |
| Codec.ToSigned | pico_hearing_aid_digital.py:198-201 | a word in [0, 2^32) becomes a two's-complement value in [-2^31, 2^31), equal to the word or the word minus 2^32 |
| Codec.DecodeChannel | pico_hearing_aid_digital.py:191-205 | decoding four bytes always gives a 24-bit sample in [-2^23, 2^23 - 1], and it is the floor of the signed word divided by 256 |
| Codec.DecodeAt | pico_hearing_aid_digital.py:188-205 | the channel word at byte `idx` of the buffer decodes to a 24-bit sample |
| Codec.ToUnsigned | pico_hearing_aid_digital.py:216-219 | a value in [-2^31, 2^31) is wrapped into [0, 2^32), equal to the value or the value plus 2^32 |
| Codec.EncodeChannel | pico_hearing_aid_digital.py:212-229 | encoding any sample gives four bytes, each in [0, 255], and the least significant byte is always 0 |
| Codec.WordOfBytes | pico_hearing_aid_digital.py:222-225 | the four bytes split off a word by `& 0xFF` and `>> 8/16/24` reassemble to that word |
| Codec.BytesOfWord | pico_hearing_aid_digital.py:191-195 | extracting bytes from an assembled word gives back each of the four bytes |
| Codec.EncodeDecode | pico_hearing_aid_digital.py:191-229 | round trip: every 24-bit sample is recovered by decoding its encoding |
| Codec.DecodeEncode | pico_hearing_aid_digital.py:191-229 | round trip: four bytes with a zero low byte are reproduced exactly by decoding then encoding |
| Compressor.Magnitude | pico_hearing_aid_digital.py:125 | `abs(sample)` is the sample or its negation, and never negative |
| Compressor.FollowEnvelope | pico_hearing_aid_digital.py:125-133 | when the magnitude equals the envelope, the envelope does not move |
| Compressor.Toward | pico_hearing_aid_digital.py:130-133 | one smoothing step: a zero coefficient holds the envelope, a unit coefficient moves it onto the target |
| Compressor.StepToward | pico_hearing_aid_digital.py:130-133 | a smoothing step with a coefficient in [0, 1] lands between the old envelope and the target |
| Compressor.EnvelopeBetween | pico_hearing_aid_digital.py:125-133 | with both coefficients in [0, 1] the new envelope lies between the old envelope and the magnitude, so a non-negative envelope stays non-negative |
| Compressor.GainReduction | pico_hearing_aid_digital.py:136-143 | the factor is exactly 1 at or below the threshold and strictly between 1/3 and 1 above it |
| Compressor.GainReductionClosedForm | pico_hearing_aid_digital.py:138-141 | above the threshold the factor equals 1/RATIO + (1 - 1/RATIO) · THRESHOLD / envelope |
| Compressor.GainReductionDecreasing | pico_hearing_aid_digital.py:136-143 | the factor never increases as the envelope grows, and strictly decreases above the threshold |
| Compressor.Trunc | pico_hearing_aid_digital.py:149 | `int(x)` truncates toward zero: it is the floor for x ≥ 0 and the ceiling for x < 0 |
| Compressor.Saturate | pico_hearing_aid_digital.py:152-156 | the clamp keeps values within ±0x7FFFFF, leaves in-range values unchanged and never increases the magnitude |
| Compressor.Attenuate | pico_hearing_aid_digital.py:146-156 | the total gain applied, truncated and clamped, always lies within ±0x7FFFFF, and at unit total gain an in-range sample passes unchanged |
| Compressor.CompressSample | pico_hearing_aid_digital.py:120-158 | for every sample, envelope, gain and coefficients, the output is within ±0x7FFFFF (so -2^23 is never produced), and the returned envelope is the follower's new envelope |
| Compressor.ScaledWithin | pico_hearing_aid_digital.py:146-149 | a sample scaled by a factor in [0, gain] lies within ± its magnitude times the gain |
| Compressor.TruncWithin | pico_hearing_aid_digital.py:149 | `int()` never moves a value away from zero, so it keeps any symmetric bound |
| Compressor.AttenuatedWithin | pico_hearing_aid_digital.py:146-156 | with a reduction factor in (0, 1] and a non-negative gain, the output magnitude is at most the sample magnitude times the gain |
| Compressor.CompressNeverAmplifies | pico_hearing_aid_digital.py:136-156 | with a non-negative user gain, the output magnitude is at most the sample magnitude times the user gain |
| Compressor.CompressTransparent | pico_hearing_aid_digital.py:136-156 | at unit gain, with the envelope at or below the threshold, an in-range sample comes out unchanged |
| Compressor.CompressAtTwiceThreshold | pico_hearing_aid_digital.py:120-158 | worked case: a sample of 1000000 with the envelope at 1000000 and unit gain comes out as 666666 |
| Controls.Normalized | pico_hearing_aid_digital.py:100 | `raw / 65535.0` is in [0, 1]; it is 0 exactly for raw 0 and 1 exactly for raw 65535 |
| Controls.GainFromReading | pico_hearing_aid_digital.py:99-101 | the gain is in [0.5, 8.0]: raw 0 gives MIN_GAIN and raw 65535 gives MAX_GAIN |
| Controls.TimeMsFromReading | pico_hearing_aid_digital.py:104-108 | the time constant is in [5, 200] ms, with both ends reached at the ends of the pot |
| Controls.SamplesPerTime | pico_hearing_aid_digital.py:113 | for a time constant in [5, 200] ms, `samples_per_time` is in [80, 3200] |
| Controls.Coefficient | pico_hearing_aid_digital.py:113-116 | the coefficient set from the compression pot is in [1/3200, 1/80] |
| Controls.ControlsMonotone | pico_hearing_aid_digital.py:99-116 | turning a pot up never lowers the gain and never raises the coefficient |
| Frames.ProcessFrame | pico_hearing_aid_digital.py:187-229 | one turn of the frame loop as a value: the 8 bytes at `idx` become 8 new bytes; what they hold is stated by `ProcessFrameWellFormed`, `FrameEnvelopes` and `QuietFramePasses` |
| Frames.ProcessFrameWellFormed | pico_hearing_aid_digital.py:187-229 | a rewritten frame has zero padding bytes at offsets 0 and 4, and both channels decode to samples within ±0x7FFFFF |
| Frames.FrameEnvelopes | pico_hearing_aid_digital.py:208-209 | each channel's envelope after a frame is one follower step on that channel's own sample |
| Frames.FrameEnvelopesNonNegative | pico_hearing_aid_digital.py:208-209 | with smoothing coefficients a frame keeps both envelopes non-negative |
| Frames.RunFrames | pico_hearing_aid_digital.py:185-229 | a pass over `n` frames produces `n` frames of 8 bytes, threading the envelopes from frame to frame |
| Frames.FrameOfRun | pico_hearing_aid_digital.py:187-229 | frame `j` processed with the envelopes left by frames 0 .. j-1 is 8 bytes |
| Frames.RunFramesPrefix | pico_hearing_aid_digital.py:187-229 | frame `j` of a pass does not depend on how many frames follow it |
| Frames.RunFramesPrefixClosed | pico_hearing_aid_digital.py:187-229 | a pass over m frames is exactly the first m frames of any longer pass over the same buffer |
| Frames.RunFramesDropLast | pico_hearing_aid_digital.py:187-229 | dropping the last frame of a pass gives the pass one frame shorter |
| Frames.RunFramesLast | pico_hearing_aid_digital.py:187-229 | a pass over n frames is the pass over n - 1 frames followed by frame n - 1 processed with the envelopes they leave |
| Frames.LastFrameOfRun | pico_hearing_aid_digital.py:187-229 | the last frame of a pass is that frame processed after the ones before it |
| Frames.RunStep | pico_hearing_aid_digital.py:187-229 | a pass over `i + 1` frames is the pass over `i` frames plus frame `i`, and leaves that frame's envelopes |
| Frames.Flatten | pico_hearing_aid_digital.py:188 | frames of 8 bytes laid end to end occupy 8 bytes per frame |
| Frames.FlattenAt | pico_hearing_aid_digital.py:188 | byte `8·j + k` of the laid-out frames is byte `k` of frame `j` |
| Frames.FlattenAppend | pico_hearing_aid_digital.py:187-188 | appending a frame appends its bytes |
| Frames.RunBytes | pico_hearing_aid_digital.py:185-229 | the bytes of a pass over `n` frames are exactly `8·n` long |
| Frames.RunBytesWellFormed | pico_hearing_aid_digital.py:185-229 | every 8-byte frame of a pass's output is well formed: zero padding bytes, and both channels within ±0x7FFFFF |
| Frames.RunFramesEnvelopesNonNegative | pico_hearing_aid_digital.py:128-133 | over any number of frames, non-negative envelopes stay non-negative when the coefficients are in [0, 1] |
| Frames.QuietFramePasses | pico_hearing_aid_digital.py:187-229 | at unit gain, a frame whose samples are at or below the threshold comes back unchanged, and the envelopes stay at or below the threshold |
| Frames.QuietChannel | pico_hearing_aid_digital.py:190-225 | one quiet channel word comes back unchanged, with its envelope at or below the threshold |
| Frames.RunFramesQuietEnvelopes | pico_hearing_aid_digital.py:185-229 | over a run of quiet frames at unit gain, the envelopes stay at or below the threshold |
| Frames.RunFramesTransparent | pico_hearing_aid_digital.py:185-229 | at unit gain, with envelopes at or below the threshold, a run of quiet frames is written back byte for byte unchanged |
| RealTimeLoop.Refreshes | pico_hearing_aid_digital.py:180 | for a `loop_count` below 20, a non-empty read refreshes the controls exactly when the count is 19, the last before the interval |
| RealTimeLoop.NextCount | pico_hearing_aid_digital.py:179-181 | after a non-empty read, `loop_count` stays below 20, and it is 0 exactly when the controls are refreshed |
| RealTimeLoop.CountAfter | pico_hearing_aid_digital.py:169-181 | `loop_count` after k non-empty reads from start-up stays below 20, and equals k during the first 20 reads |
| RealTimeLoop.CountAfterIsModulo | pico_hearing_aid_digital.py:169-181 | from start-up, `loop_count` is the number of non-empty reads modulo 20 |
| RealTimeLoop.RefreshEveryInterval | pico_hearing_aid_digital.py:177-182 | the controls are refreshed on the k-th non-empty read exactly when k is a multiple of 20 |
| RealTimeLoop.ProcessFrameLocal | pico_hearing_aid_digital.py:190-195 | a frame's result depends only on its own 8 bytes |
| RealTimeLoop.PassStep | pico_hearing_aid_digital.py:187-229 | rewriting frame `i` in place extends a buffer holding `i` processed frames and the untouched input to one holding `i + 1` |
| RealTimeLoop.HearingAid.constructor | pico_hearing_aid_digital.py:82-92 | start-up state: a zeroed 512-byte buffer, envelopes 0, gain 1.0, attack 0.1, release 0.01, `loop_count` 0 |
| RealTimeLoop.HearingAid.ReadPots | pico_hearing_aid_digital.py:94-118 | sets the gain from the gain reading, and both coefficients to the same value from the compression reading; returns the gain and the time constant; envelopes and `loop_count` unchanged |
| RealTimeLoop.HearingAid.StoreWord | pico_hearing_aid_digital.py:222-229 | writing one encoded word changes those 4 bytes of the buffer and no other |
| RealTimeLoop.HearingAid.CompressFrameAt | pico_hearing_aid_digital.py:188-229 | the loop body replaces the frame at `idx` by the processed frame, leaves every other byte alone, and moves both envelopes |
| RealTimeLoop.HearingAid.CompressNextFrame | pico_hearing_aid_digital.py:187-229 | one turn of the frame loop extends the processed prefix by one frame |
| RealTimeLoop.HearingAid.CompressFrames | pico_hearing_aid_digital.py:185-229 | the frame loop leaves the pass over the first `numFrames` frames of the entry buffer, then the untouched rest, and the pass's envelopes |
| RealTimeLoop.HearingAid.ProcessChunk | pico_hearing_aid_digital.py:175-232 | an empty read changes nothing and writes nothing. A non-empty read advances `loop_count`, refreshing the controls exactly when it reaches 20. It rewrites exactly `numRead / 8` frames, keeps the trailing bytes, and writes `audio_buffer[:num_read]` |

## Left out

- I2S and ADC drivers (`I2S(...)`, `readinto`, `write`, `deinit`, `read_u16`): they are foreign MicroPython driver calls. The byte count read and the two potentiometer readings are parameters of `ProcessChunk`. The bytes written to the DAC are its result. The audio that `readinto` stores is whatever `audioBuffer` holds on entry to `ProcessChunk`: the caller writes it, and every contract is stated for any entry contents.
- The `while True` loop is modelled one iteration at a time (`ProcessChunk`). The count of iterations is captured by `CountAfter`, not by a method that runs forever.
- The `KeyboardInterrupt` and `finally` shutdown path and every `print`: process lifecycle and console output.
- IEEE binary64 rounding of the envelope, gain and coefficient arithmetic: the model uses exact reals, so the proved bounds hold in exact arithmetic.
- The values `gain, comp_time` returned by `read_pots` are discarded by the main loop; `ReadPots` returns them, and `ProcessChunk` drops them as the loop does.
- `live_plot.py`, `test_inmp441.py` and `test_i2s.py` are not part of this model: a host-side plotting tool and two hardware smoke tests.
- The loop body is split into `StoreWord`, `CompressFrameAt`, `CompressNextFrame` and `CompressFrames`. The source writes it inline in one `for` loop; the split follows its statements in order and changes no behaviour.
