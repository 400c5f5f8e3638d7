/** What one pass of the `for i in range(num_frames)` loop computes, as
    functions of the input buffer, the two envelopes and the control settings:
    each frame is decoded, both channels are compressed with their own
    envelope, and the results are encoded back. The imperative loop in
    RealTimeLoop is proved to compute exactly this. */
module Frames {
  import opened Codec
  import Compressor

  /** The control state read by the per-sample processing. */
  datatype Settings = Settings(gain: real, attack: real, release: real)

  /** Both coefficients are fractions, so envelopes move toward the magnitude
      without overshooting. */
  predicate Smoothing(st: Settings) {
    0.0 <= st.attack <= 1.0 && 0.0 <= st.release <= 1.0
  }

  /** One rewritten frame and the two envelopes after it. */
  datatype FrameOut = FrameOut(bytes: seq<Byte>, left: real, right: real)

  /** The rewritten frames of a pass, in order, and the envelopes after them. */
  datatype Pass = Pass(frames: seq<seq<Byte>>, left: real, right: real)

  /** Both words of an 8-byte frame have a zero padding byte and decode to
      samples within the symmetric saturation range. */
  predicate WellFormedFrame(frame: seq<Byte>) {
    && |frame| == 8
    && frame[0] == 0 && frame[4] == 0
    && -Compressor.MAX_OUT <= DecodeAt(frame, 0) <= Compressor.MAX_OUT
    && -Compressor.MAX_OUT <= DecodeAt(frame, 4) <= Compressor.MAX_OUT
  }

  /** One stereo frame at byte `idx`: left then right, each through its own
      envelope. */
  function ProcessFrame(buf: seq<Byte>, idx: nat, envLeft: real, envRight: real, st: Settings): (f: FrameOut)
    requires idx + 8 <= |buf|
    ensures |f.bytes| == 8
  {
    var l := Compressor.CompressSample(DecodeAt(buf, idx), envLeft, st.gain, st.attack, st.release);
    var r := Compressor.CompressSample(DecodeAt(buf, idx + 4), envRight, st.gain, st.attack, st.release);
    FrameOut(EncodeChannel(l.output) + EncodeChannel(r.output), l.envelope, r.envelope)
  }

  /** A rewritten frame is always well formed: each word decodes back to the
      compressor's output for its channel, which is within the saturation range. */
  lemma ProcessFrameWellFormed(buf: seq<Byte>, idx: nat, envLeft: real, envRight: real, st: Settings)
    requires idx + 8 <= |buf|
    ensures WellFormedFrame(ProcessFrame(buf, idx, envLeft, envRight, st).bytes)
  {
    var l := Compressor.CompressSample(DecodeAt(buf, idx), envLeft, st.gain, st.attack, st.release);
    var r := Compressor.CompressSample(DecodeAt(buf, idx + 4), envRight, st.gain, st.attack, st.release);
    var bytes := EncodeChannel(l.output) + EncodeChannel(r.output);
    EncodeDecode(l.output);
    EncodeDecode(r.output);
    assert DecodeAt(bytes, 0) == l.output;
    assert DecodeAt(bytes, 4) == r.output;
  }

  /** Each channel's envelope after a frame is one step of the envelope
      follower on that channel's sample. */
  lemma FrameEnvelopes(buf: seq<Byte>, idx: nat, envLeft: real, envRight: real, st: Settings)
    requires idx + 8 <= |buf|
    ensures var f := ProcessFrame(buf, idx, envLeft, envRight, st);
            && f.left == Compressor.FollowEnvelope(DecodeAt(buf, idx), envLeft, st.attack, st.release)
            && f.right == Compressor.FollowEnvelope(DecodeAt(buf, idx + 4), envRight, st.attack, st.release)
  {
  }

  /** With smoothing coefficients a frame keeps non-negative envelopes
      non-negative. */
  lemma FrameEnvelopesNonNegative(buf: seq<Byte>, idx: nat, envLeft: real, envRight: real, st: Settings)
    requires idx + 8 <= |buf|
    requires Smoothing(st) && envLeft >= 0.0 && envRight >= 0.0
    ensures var f := ProcessFrame(buf, idx, envLeft, envRight, st); f.left >= 0.0 && f.right >= 0.0
  {
    FrameEnvelopes(buf, idx, envLeft, envRight, st);
    Compressor.EnvelopeBetween(DecodeAt(buf, idx), envLeft, st.attack, st.release);
    Compressor.EnvelopeBetween(DecodeAt(buf, idx + 4), envRight, st.attack, st.release);
  }

  /** The first `n` frames of `buf`, processed in order with the envelopes
      threaded from frame to frame. */
  function RunFrames(buf: seq<Byte>, n: nat, envLeft: real, envRight: real, st: Settings): (p: Pass)
    requires n * 8 <= |buf|
    ensures |p.frames| == n
    ensures forall j :: 0 <= j < n ==> |p.frames[j]| == 8
    decreases n
  {
    if n == 0 then Pass([], envLeft, envRight)
    else
      var before := RunFrames(buf, n - 1, envLeft, envRight, st);
      var f := ProcessFrame(buf, (n - 1) * 8, before.left, before.right, st);
      Pass(before.frames + [f.bytes], f.left, f.right)
  }

  /** Frame `j` processed with the envelopes left by the frames before it. */
  function FrameOfRun(buf: seq<Byte>, j: nat, envLeft: real, envRight: real, st: Settings): (frame: seq<Byte>)
    requires (j + 1) * 8 <= |buf|
    ensures |frame| == 8
  {
    var before := RunFrames(buf, j, envLeft, envRight, st);
    ProcessFrame(buf, j * 8, before.left, before.right, st).bytes
  }

  /** Frames already produced are not changed by processing later frames:
      frame `j` of any run longer than `j` is the same frame. */
  lemma RunFramesPrefix(buf: seq<Byte>, n: nat, envLeft: real, envRight: real, st: Settings, j: nat)
    requires n * 8 <= |buf|
    requires j < n
    ensures RunFrames(buf, n, envLeft, envRight, st).frames[j] == FrameOfRun(buf, j, envLeft, envRight, st)
  {
    var frames := RunFrames(buf, n, envLeft, envRight, st).frames;
    RunFramesPrefixClosed(buf, n, j + 1, envLeft, envRight, st);
    LastFrameOfRun(buf, j + 1, envLeft, envRight, st, j);
    assert frames[..j + 1][j] == frames[j];
  }

  /** A pass over `m` frames is the first `m` frames of any longer pass. */
  lemma {:induction false} RunFramesPrefixClosed(buf: seq<Byte>, n: nat, m: nat, envLeft: real, envRight: real, st: Settings)
    requires m <= n && n * 8 <= |buf|
    ensures RunFrames(buf, n, envLeft, envRight, st).frames[..m] == RunFrames(buf, m, envLeft, envRight, st).frames
    decreases n
  {
    if m < n {
      var frames := RunFrames(buf, n, envLeft, envRight, st).frames;
      RunFramesPrefixClosed(buf, n - 1, m, envLeft, envRight, st);
      RunFramesDropLast(buf, n, envLeft, envRight, st);
      assert frames[..m] == frames[..n - 1][..m];
    } else {
      assert RunFrames(buf, n, envLeft, envRight, st).frames[..n] == RunFrames(buf, n, envLeft, envRight, st).frames;
    }
  }

  /** Dropping the last frame of a pass gives the pass one frame shorter. */
  lemma RunFramesDropLast(buf: seq<Byte>, n: nat, envLeft: real, envRight: real, st: Settings)
    requires 1 <= n && n * 8 <= |buf|
    ensures RunFrames(buf, n, envLeft, envRight, st).frames[..n - 1] == RunFrames(buf, n - 1, envLeft, envRight, st).frames
  {
    RunFramesLast(buf, n, envLeft, envRight, st);
  }

  /** The last frame of a pass is that frame processed after the ones before it. */
  lemma LastFrameOfRun(buf: seq<Byte>, n: nat, envLeft: real, envRight: real, st: Settings, j: nat)
    requires n * 8 <= |buf| && j == n - 1
    ensures RunFrames(buf, n, envLeft, envRight, st).frames[j] == FrameOfRun(buf, j, envLeft, envRight, st)
  {
    RunFramesLast(buf, n, envLeft, envRight, st);
  }

  /** A pass over `n` frames is the pass over `n - 1` frames plus the last one. */
  lemma RunFramesLast(buf: seq<Byte>, n: nat, envLeft: real, envRight: real, st: Settings)
    requires 1 <= n && n * 8 <= |buf|
    ensures RunFrames(buf, n, envLeft, envRight, st).frames
            == RunFrames(buf, n - 1, envLeft, envRight, st).frames + [FrameOfRun(buf, n - 1, envLeft, envRight, st)]
  {
  }

  /** The frames laid end to end, as they sit in the buffer. */
  function Flatten(frames: seq<seq<Byte>>): (bytes: seq<Byte>)
    ensures (forall j :: 0 <= j < |frames| ==> |frames[j]| == 8) ==> |bytes| == 8 * |frames|
  {
    if frames == [] then []
    else Flatten(frames[..|frames| - 1]) + frames[|frames| - 1]
  }

  /** Byte `8 * j + k` of the flattened frames is byte `k` of frame `j`. */
  lemma {:induction false} FlattenAt(frames: seq<seq<Byte>>, j: nat, k: nat)
    requires forall i :: 0 <= i < |frames| ==> |frames[i]| == 8
    requires j < |frames| && k < 8
    ensures |Flatten(frames)| == 8 * |frames|
    ensures Flatten(frames)[8 * j + k] == frames[j][k]
  {
    var init := frames[..|frames| - 1];
    assert Flatten(frames) == Flatten(init) + frames[|frames| - 1];
    if j < |frames| - 1 {
      FlattenAt(init, j, k);
    }
  }

  /** Appending a frame appends its bytes. */
  lemma FlattenAppend(frames: seq<seq<Byte>>, frame: seq<Byte>)
    ensures Flatten(frames + [frame]) == Flatten(frames) + frame
  {
    assert (frames + [frame])[..|frames|] == frames;
  }

  /** The bytes of a pass over the first `n` frames. */
  function RunBytes(buf: seq<Byte>, n: nat, envLeft: real, envRight: real, st: Settings): (bytes: seq<Byte>)
    requires n * 8 <= |buf|
    ensures |bytes| == 8 * n
  {
    Flatten(RunFrames(buf, n, envLeft, envRight, st).frames)
  }

  /** The run of `i + 1` frames extends the run of `i` frames by frame `i`. */
  lemma RunStep(buf: seq<Byte>, i: nat, envLeft: real, envRight: real, st: Settings)
    requires 8 * (i + 1) <= |buf|
    ensures var before := RunFrames(buf, i, envLeft, envRight, st);
            var f := ProcessFrame(buf, i * 8, before.left, before.right, st);
            var after := RunFrames(buf, i + 1, envLeft, envRight, st);
            && RunBytes(buf, i + 1, envLeft, envRight, st) == RunBytes(buf, i, envLeft, envRight, st) + f.bytes
            && after.left == f.left && after.right == f.right
  {
    var before := RunFrames(buf, i, envLeft, envRight, st);
    var f := ProcessFrame(buf, i * 8, before.left, before.right, st);
    FlattenAppend(before.frames, f.bytes);
  }

  /** Every output frame of a pass is well formed: padding bytes at `8 * j` and
      `8 * j + 4` are zero, and both channels decode to samples within
      `[-0x7FFFFF, 0x7FFFFF]`. */
  lemma RunBytesWellFormed(buf: seq<Byte>, n: nat, envLeft: real, envRight: real, st: Settings, j: nat)
    requires n * 8 <= |buf|
    requires j < n
    ensures WellFormedFrame(RunBytes(buf, n, envLeft, envRight, st)[8 * j .. 8 * j + 8])
  {
    var frames := RunFrames(buf, n, envLeft, envRight, st).frames;
    var out := RunBytes(buf, n, envLeft, envRight, st);
    RunFramesPrefix(buf, n, envLeft, envRight, st, j);
    var before := RunFrames(buf, j, envLeft, envRight, st);
    ProcessFrameWellFormed(buf, j * 8, before.left, before.right, st);
    forall k | 0 <= k < 8
      ensures out[8 * j .. 8 * j + 8][k] == frames[j][k]
    {
      FlattenAt(frames, j, k);
    }
    assert out[8 * j .. 8 * j + 8] == frames[j];
  }

  /** With smoothing coefficients, non-negative envelopes stay non-negative
      over any number of frames. */
  lemma {:induction false} RunFramesEnvelopesNonNegative(buf: seq<Byte>, n: nat, envLeft: real, envRight: real, st: Settings)
    requires n * 8 <= |buf|
    requires Smoothing(st) && envLeft >= 0.0 && envRight >= 0.0
    ensures var p := RunFrames(buf, n, envLeft, envRight, st); p.left >= 0.0 && p.right >= 0.0
  {
    if n > 0 {
      var before := RunFrames(buf, n - 1, envLeft, envRight, st);
      RunFramesEnvelopesNonNegative(buf, n - 1, envLeft, envRight, st);
      FrameEnvelopesNonNegative(buf, (n - 1) * 8, before.left, before.right, st);
      RunStep(buf, n - 1, envLeft, envRight, st);
    }
  }

  /** A frame is quiet when both words have a zero padding byte and both
      samples are at most the compression threshold in magnitude. */
  predicate QuietFrame(buf: seq<Byte>, idx: nat)
    requires idx + 8 <= |buf|
  {
    && buf[idx] == 0 && buf[idx + 4] == 0
    && Compressor.Magnitude(DecodeAt(buf, idx)) as real <= Compressor.THRESHOLD
    && Compressor.Magnitude(DecodeAt(buf, idx + 4)) as real <= Compressor.THRESHOLD
  }

  /** With unit gain, smoothing coefficients and envelopes at or below the
      threshold, the envelopes stay at or below the threshold over a run of
      quiet frames. */
  lemma {:induction false} RunFramesQuietEnvelopes(buf: seq<Byte>, n: nat, envLeft: real, envRight: real, st: Settings)
    requires n * 8 <= |buf|
    requires st.gain == 1.0 && Smoothing(st)
    requires envLeft <= Compressor.THRESHOLD && envRight <= Compressor.THRESHOLD
    requires forall j :: 0 <= j < n ==> QuietFrame(buf, j * 8)
    ensures var p := RunFrames(buf, n, envLeft, envRight, st);
            p.left <= Compressor.THRESHOLD && p.right <= Compressor.THRESHOLD
  {
    if n > 0 {
      var before := RunFrames(buf, n - 1, envLeft, envRight, st);
      RunFramesQuietEnvelopes(buf, n - 1, envLeft, envRight, st);
      assert QuietFrame(buf, (n - 1) * 8);
      QuietFramePasses(buf, (n - 1) * 8, before.left, before.right, st);
      RunStep(buf, n - 1, envLeft, envRight, st);
    }
  }

  /** Transparency: with unit gain, smoothing coefficients and envelopes at or
      below the threshold, a run of quiet frames is written back byte for
      byte unchanged. */
  lemma {:induction false} RunFramesTransparent(buf: seq<Byte>, n: nat, envLeft: real, envRight: real, st: Settings)
    requires n * 8 <= |buf|
    requires st.gain == 1.0 && Smoothing(st)
    requires envLeft <= Compressor.THRESHOLD && envRight <= Compressor.THRESHOLD
    requires forall j :: 0 <= j < n ==> QuietFrame(buf, j * 8)
    ensures RunBytes(buf, n, envLeft, envRight, st) == buf[..n * 8]
  {
    if n > 0 {
      var before := RunFrames(buf, n - 1, envLeft, envRight, st);
      RunFramesTransparent(buf, n - 1, envLeft, envRight, st);
      RunFramesQuietEnvelopes(buf, n - 1, envLeft, envRight, st);
      var idx := (n - 1) * 8;
      assert QuietFrame(buf, (n - 1) * 8);
      QuietFramePasses(buf, idx, before.left, before.right, st);
      RunStep(buf, n - 1, envLeft, envRight, st);
      SliceSplit(buf, 0, idx, n * 8);
    }
  }

  /** `s[a..c]` is `s[a..b]` followed by `s[b..c]`. */
  lemma SliceSplit(s: seq<Byte>, a: nat, b: nat, c: nat)
    requires a <= b <= c <= |s|
    ensures s[a..c] == s[a..b] + s[b..c]
  {
  }

  /** One quiet frame comes back unchanged, with both envelopes still at or
      below the threshold. */
  lemma QuietFramePasses(buf: seq<Byte>, idx: nat, envLeft: real, envRight: real, st: Settings)
    requires idx + 8 <= |buf| && QuietFrame(buf, idx)
    requires st.gain == 1.0 && Smoothing(st)
    requires envLeft <= Compressor.THRESHOLD && envRight <= Compressor.THRESHOLD
    ensures var f := ProcessFrame(buf, idx, envLeft, envRight, st);
            f.bytes == buf[idx .. idx + 8] && f.left <= Compressor.THRESHOLD && f.right <= Compressor.THRESHOLD
  {
    QuietChannel(buf, idx, envLeft, st);
    QuietChannel(buf, idx + 4, envRight, st);
    assert buf[idx .. idx + 8] == buf[idx .. idx + 4] + buf[idx + 4 .. idx + 8];
  }

  /** One quiet channel word comes back unchanged, and its envelope stays at
      or below the threshold. */
  lemma QuietChannel(buf: seq<Byte>, idx: nat, env: real, st: Settings)
    requires idx + 4 <= |buf|
    requires st.gain == 1.0 && Smoothing(st) && env <= Compressor.THRESHOLD
    requires buf[idx] == 0
    requires Compressor.Magnitude(DecodeAt(buf, idx)) as real <= Compressor.THRESHOLD
    ensures var c := Compressor.CompressSample(DecodeAt(buf, idx), env, st.gain, st.attack, st.release);
            EncodeChannel(c.output) == buf[idx .. idx + 4] && c.envelope <= Compressor.THRESHOLD
  {
    var v := DecodeAt(buf, idx);
    Compressor.EnvelopeBetween(v, env, st.attack, st.release);
    Compressor.CompressTransparent(v, env, st.attack, st.release);
    DecodeEncode(buf[idx], buf[idx + 1], buf[idx + 2], buf[idx + 3]);
  }
}
