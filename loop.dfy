/** The real-time loop body: one iteration of `while True` handles one
    `readinto` result. The process-wide state of the source (the audio
    buffer, both envelopes, the control settings and `loop_count`) lives in
    a `HearingAid` object. The number of bytes read and the two potentiometer
    readings are parameters; the I2S and ADC drivers are not modelled. The
    audio that `readinto` stores is whatever `audioBuffer` holds when
    `ProcessChunk` is called: the caller writes it, and every contract is
    stated for any entry contents. */
module RealTimeLoop {
  import opened Codec
  import Compressor
  import Controls
  import opened Frames

  /** Size of `audio_buffer` in bytes. */
  const CHUNK_SIZE: nat := 512
  /** Controls are refreshed every this many non-empty reads. */
  const POT_READ_INTERVAL: nat := 20

  datatype Option<T> = None | Some(value: T)

  /** Whether a non-empty read that finds `loop_count == count` refreshes the
      controls. For a count below the interval, that is exactly the last count
      before it. */
  predicate Refreshes(count: nat)
    ensures count < POT_READ_INTERVAL ==> (Refreshes(count) <==> count == POT_READ_INTERVAL - 1)
  {
    count + 1 >= POT_READ_INTERVAL
  }

  /** `loop_count` after a non-empty read: incremented, and reset to 0 when it
      reaches the interval. It always stays below the interval. */
  function NextCount(count: nat): (next: nat)
    ensures next < POT_READ_INTERVAL
    ensures Refreshes(count) <==> next == 0
  {
    if count + 1 >= POT_READ_INTERVAL then 0 else count + 1
  }

  /** `loop_count` after `k` non-empty reads from the start. It stays below the
      interval, and during the first interval it counts the reads. */
  function CountAfter(k: nat): (c: nat)
    ensures c < POT_READ_INTERVAL
    ensures k < POT_READ_INTERVAL ==> c == k
  {
    if k == 0 then 0 else NextCount(CountAfter(k - 1))
  }

  /** From the start, `loop_count` is the number of non-empty reads modulo 20. */
  lemma {:induction false} CountAfterIsModulo(k: nat)
    ensures CountAfter(k) == k % POT_READ_INTERVAL
  {
    if k > 0 {
      CountAfterIsModulo(k - 1);
    }
  }

  /** The controls are refreshed exactly on every 20th non-empty read. */
  lemma RefreshEveryInterval(k: nat)
    requires k >= 1
    ensures Refreshes(CountAfter(k - 1)) <==> k % POT_READ_INTERVAL == 0
  {
    CountAfterIsModulo(k - 1);
  }

  /** The state of the frame loop after `i` frames: the buffer holds the first
      `i` frames of the pass followed by the untouched input, and the
      envelopes are those of the pass after `i` frames. */
  ghost predicate PassPrefix(input: seq<Byte>, i: nat, envLeft0: real, envRight0: real, st: Settings,
                             buf: seq<Byte>, envLeft: real, envRight: real)
  {
    && 8 * i <= |input|
    && buf == RunBytes(input, i, envLeft0, envRight0, st) + input[8 * i..]
    && envLeft == RunFrames(input, i, envLeft0, envRight0, st).left
    && envRight == RunFrames(input, i, envLeft0, envRight0, st).right
  }

  /** `next` and the envelopes `nextLeft`, `nextRight` are what rewriting the
      frame at byte `idx` of `buf` in place leaves. */
  ghost predicate FrameRewritten(buf: seq<Byte>, idx: nat, envLeft: real, envRight: real, st: Settings,
                                 next: seq<Byte>, nextLeft: real, nextRight: real)
  {
    && idx + 8 <= |buf|
    && var f := ProcessFrame(buf, idx, envLeft, envRight, st);
    && next == buf[..idx] + f.bytes + buf[idx + 8..]
    && nextLeft == f.left && nextRight == f.right
  }

  /** One step of the frame loop: rewriting frame `i` in place extends the
      prefix of the pass by one frame. */
  lemma PassStep(input: seq<Byte>, i: nat, envLeft0: real, envRight0: real, st: Settings,
                 current: seq<Byte>, envLeft: real, envRight: real,
                 next: seq<Byte>, nextLeft: real, nextRight: real)
    requires 8 * (i + 1) <= |input|
    requires PassPrefix(input, i, envLeft0, envRight0, st, current, envLeft, envRight)
    requires FrameRewritten(current, i * 8, envLeft, envRight, st, next, nextLeft, nextRight)
    ensures PassPrefix(input, i + 1, envLeft0, envRight0, st, next, nextLeft, nextRight)
  {
    assert current[..8 * i] == RunBytes(input, i, envLeft0, envRight0, st);
    assert current[8 * i .. 8 * i + 8] == input[8 * i .. 8 * i + 8];
    assert current[8 * i + 8..] == input[8 * (i + 1)..];
    ProcessFrameLocal(current, input, i * 8, envLeft, envRight, st);
    RunStep(input, i, envLeft0, envRight0, st);
  }

  /** A frame's result depends only on its own 8 bytes. */
  lemma ProcessFrameLocal(b1: seq<Byte>, b2: seq<Byte>, idx: nat, envLeft: real, envRight: real, st: Settings)
    requires idx + 8 <= |b1| && idx + 8 <= |b2|
    requires b1[idx .. idx + 8] == b2[idx .. idx + 8]
    ensures ProcessFrame(b1, idx, envLeft, envRight, st) == ProcessFrame(b2, idx, envLeft, envRight, st)
  {
    assert DecodeAt(b1, idx) == DecodeAt(b2, idx) by {
      assert b1[idx] == b2[idx] && b1[idx + 1] == b2[idx + 1] && b1[idx + 2] == b2[idx + 2] && b1[idx + 3] == b2[idx + 3];
    }
    assert DecodeAt(b1, idx + 4) == DecodeAt(b2, idx + 4) by {
      assert b1[idx + 4] == b2[idx + 4] && b1[idx + 5] == b2[idx + 5] && b1[idx + 6] == b2[idx + 6] && b1[idx + 7] == b2[idx + 7];
    }
  }

  class HearingAid {
    /** `audio_buffer`, rewritten in place by every chunk. */
    const audioBuffer: array<Byte>
    var envelopeLeft: real
    var envelopeRight: real
    var currentGain: real
    var attackCoeff: real
    var releaseCoeff: real
    var loopCount: nat

    /** The buffer keeps its size, `loop_count` stays below the interval, the
        envelopes are non-negative, the gain stays in its range and both
        coefficients are fractions in (0, 1]. */
    ghost predicate Valid()
      reads this
    {
      && audioBuffer.Length == CHUNK_SIZE
      && loopCount < POT_READ_INTERVAL
      && envelopeLeft >= 0.0 && envelopeRight >= 0.0
      && Controls.MIN_GAIN <= currentGain <= Controls.MAX_GAIN
      && 0.0 < attackCoeff <= 1.0 && 0.0 < releaseCoeff <= 1.0
    }

    /** The settings the compressor reads. */
    function CurrentSettings(): Settings
      reads this
    {
      Settings(currentGain, attackCoeff, releaseCoeff)
    }

    /** The start-up state: a zeroed buffer, silent envelopes, unit gain and
        the asymmetric coefficients 0.1 and 0.01 until the first refresh. */
    constructor ()
      ensures Valid() && fresh(audioBuffer)
      ensures audioBuffer[..] == seq(CHUNK_SIZE, _ => 0)
      ensures envelopeLeft == 0.0 && envelopeRight == 0.0
      ensures currentGain == 1.0 && attackCoeff == 0.1 && releaseCoeff == 0.01
      ensures loopCount == 0
    {
      audioBuffer := new Byte[CHUNK_SIZE](_ => 0);
      envelopeLeft, envelopeRight := 0.0, 0.0;
      currentGain := 1.0;
      attackCoeff := 0.1;
      releaseCoeff := 0.01;
      loopCount := 0;
    }

    /** `read_pots`: sets the gain from the first reading and one smoothing
        coefficient, used for both attack and release, from the second.
        Returns the gain and the time constant in milliseconds. */
    method ReadPots(gainRaw: Controls.Reading, compressRaw: Controls.Reading) returns (gain: real, timeMs: real)
      modifies this
      ensures old(Valid()) ==> Valid()
      ensures gain == currentGain == Controls.GainFromReading(gainRaw)
      ensures timeMs == Controls.TimeMsFromReading(compressRaw)
      ensures attackCoeff == releaseCoeff == Controls.Coefficient(compressRaw)
      ensures envelopeLeft == old(envelopeLeft) && envelopeRight == old(envelopeRight)
      ensures loopCount == old(loopCount)
    {
      var gainNormalized := gainRaw as real / Controls.FULL_SCALE;
      currentGain := Controls.MIN_GAIN + gainNormalized * (Controls.MAX_GAIN - Controls.MIN_GAIN);

      var compressNormalized := compressRaw as real / Controls.FULL_SCALE;
      timeMs := Controls.MIN_TIME_MS + compressNormalized * (Controls.MAX_TIME_MS - Controls.MIN_TIME_MS);

      var samplesPerTime := (timeMs / 1000.0) * Controls.SAMPLE_RATE;
      assert samplesPerTime == Controls.SamplesPerTime(Controls.TimeMsFromReading(compressRaw));
      if samplesPerTime > 0.0 {
        attackCoeff := 1.0 / samplesPerTime;
        releaseCoeff := 1.0 / samplesPerTime;
      }
      gain := currentGain;
    }

    /** Writes one encoded 4-byte word over bytes `idx .. idx + 4` of the
        buffer; every other byte keeps its value. */
    method StoreWord(idx: nat, word: seq<Byte>)
      requires |word| == 4 && idx + 4 <= audioBuffer.Length
      modifies audioBuffer
      ensures audioBuffer[..] == old(audioBuffer[..])[..idx] + word + old(audioBuffer[..])[idx + 4..]
    {
      audioBuffer[idx] := word[0];
      audioBuffer[idx + 1] := word[1];
      audioBuffer[idx + 2] := word[2];
      audioBuffer[idx + 3] := word[3];
      ghost var expected := old(audioBuffer[..])[..idx] + word + old(audioBuffer[..])[idx + 4..];
      assert forall k | 0 <= k < audioBuffer.Length :: audioBuffer[k] == expected[k];
    }

    /** The body of the frame loop for the frame at byte `idx`: decode both
        channels, compress each through its own envelope with the current
        settings, and write the two encoded words back over the frame. Only
        those 8 bytes and the two envelopes change. */
    method CompressFrameAt(idx: nat)
      requires idx + 8 <= audioBuffer.Length
      modifies this`envelopeLeft, this`envelopeRight, audioBuffer
      ensures FrameRewritten(old(audioBuffer[..]), idx, old(envelopeLeft), old(envelopeRight),
                             Settings(currentGain, attackCoeff, releaseCoeff),
                             audioBuffer[..], envelopeLeft, envelopeRight)
    {
      ghost var input := audioBuffer[..];
      var left := DecodeChannel(audioBuffer[idx], audioBuffer[idx + 1], audioBuffer[idx + 2], audioBuffer[idx + 3]);
      var right := DecodeChannel(audioBuffer[idx + 4], audioBuffer[idx + 5], audioBuffer[idx + 6], audioBuffer[idx + 7]);
      assert left == DecodeAt(input, idx) && right == DecodeAt(input, idx + 4);

      var l := Compressor.CompressSample(left, envelopeLeft, currentGain, attackCoeff, releaseCoeff);
      envelopeLeft := l.envelope;
      var r := Compressor.CompressSample(right, envelopeRight, currentGain, attackCoeff, releaseCoeff);
      envelopeRight := r.envelope;

      var leftBytes := EncodeChannel(l.output);
      var rightBytes := EncodeChannel(r.output);
      assert ProcessFrame(input, idx, old(envelopeLeft), old(envelopeRight), Settings(currentGain, attackCoeff, releaseCoeff))
          == FrameOut(leftBytes + rightBytes, l.envelope, r.envelope);
      StoreWord(idx, leftBytes);
      ghost var half := audioBuffer[..];
      StoreWord(idx + 4, rightBytes);
      assert half[..idx + 4] == input[..idx] + leftBytes;
      assert half[idx + 8..] == input[idx + 8..];
      assert audioBuffer[..] == input[..idx] + (leftBytes + rightBytes) + input[idx + 8..];
    }

    /** One turn of the frame loop: rewrites frame `i`, extending the prefix
        of the pass over `input` by one frame. */
    method CompressNextFrame(ghost input: seq<Byte>, i: nat, ghost envLeft0: real, ghost envRight0: real)
      requires 8 * (i + 1) <= |input| == audioBuffer.Length
      requires PassPrefix(input, i, envLeft0, envRight0, Settings(currentGain, attackCoeff, releaseCoeff),
                          audioBuffer[..], envelopeLeft, envelopeRight)
      modifies this`envelopeLeft, this`envelopeRight, audioBuffer
      ensures PassPrefix(input, i + 1, envLeft0, envRight0, Settings(currentGain, attackCoeff, releaseCoeff),
                         audioBuffer[..], envelopeLeft, envelopeRight)
    {
      ghost var current := audioBuffer[..];
      ghost var envLeft, envRight := envelopeLeft, envelopeRight;
      CompressFrameAt(i * 8);
      PassStep(input, i, envLeft0, envRight0, Settings(currentGain, attackCoeff, releaseCoeff),
               current, envLeft, envRight, audioBuffer[..], envelopeLeft, envelopeRight);
    }

    /** The frame loop `for i in range(num_frames)`: rewrites the first
        `numFrames` frames in place, exactly as one pass over the buffer as it
        was on entry, and leaves the bytes after them alone. */
    method CompressFrames(numFrames: nat)
      requires numFrames * 8 <= audioBuffer.Length
      modifies this`envelopeLeft, this`envelopeRight, audioBuffer
      ensures var p := RunFrames(old(audioBuffer[..]), numFrames, old(envelopeLeft), old(envelopeRight),
                                 Settings(currentGain, attackCoeff, releaseCoeff));
        && audioBuffer[..] == Flatten(p.frames) + old(audioBuffer[..])[8 * numFrames..]
        && envelopeLeft == p.left && envelopeRight == p.right
    {
      ghost var input := audioBuffer[..];
      ghost var envLeft0, envRight0 := envelopeLeft, envelopeRight;
      var i := 0;
      while i < numFrames
        invariant 0 <= i <= numFrames
        invariant PassPrefix(input, i, envLeft0, envRight0, Settings(currentGain, attackCoeff, releaseCoeff),
                             audioBuffer[..], envelopeLeft, envelopeRight)
      {
        CompressNextFrame(input, i, envLeft0, envRight0);
        i := i + 1;
      }
    }

    /** One iteration of the main loop for a read of `numRead` bytes, which
        `readinto` has already placed in `audioBuffer`. An empty
        read changes nothing and writes nothing. Otherwise `loop_count`
        advances (refreshing the controls when it reaches the interval), the
        first `numRead / 8` frames are rewritten in place as one pass with the
        settings then in force, the trailing `numRead % 8` bytes and everything
        beyond `numRead` are left as they were, and the first `numRead` bytes
        are written out. */
    method ProcessChunk(numRead: int, gainRaw: Controls.Reading, compressRaw: Controls.Reading)
      returns (written: Option<seq<Byte>>)
      requires Valid()
      requires 0 <= numRead <= audioBuffer.Length
      modifies this, audioBuffer
      ensures Valid()
      ensures numRead == 0 ==>
        && written == None
        && audioBuffer[..] == old(audioBuffer[..])
        && envelopeLeft == old(envelopeLeft) && envelopeRight == old(envelopeRight)
        && CurrentSettings() == old(CurrentSettings()) && loopCount == old(loopCount)
      ensures numRead > 0 ==> loopCount == NextCount(old(loopCount))
      ensures numRead > 0 && Refreshes(old(loopCount)) ==>
        && currentGain == Controls.GainFromReading(gainRaw)
        && attackCoeff == releaseCoeff == Controls.Coefficient(compressRaw)
      ensures numRead > 0 && !Refreshes(old(loopCount)) ==> CurrentSettings() == old(CurrentSettings())
      ensures numRead > 0 ==>
        var n := numRead / 8;
        var p := RunFrames(old(audioBuffer[..]), n, old(envelopeLeft), old(envelopeRight), CurrentSettings());
        && audioBuffer[..] == Flatten(p.frames) + old(audioBuffer[..])[8 * n..]
        && envelopeLeft == p.left && envelopeRight == p.right
        && written == Some(audioBuffer[..numRead])
    {
      if numRead == 0 {
        return None;
      }
      loopCount := loopCount + 1;
      if loopCount >= POT_READ_INTERVAL {
        loopCount := 0;
        var _, _ := ReadPots(gainRaw, compressRaw);
      }

      var numFrames := numRead / 8;
      RunFramesEnvelopesNonNegative(audioBuffer[..], numFrames, envelopeLeft, envelopeRight, CurrentSettings());
      CompressFrames(numFrames);
      written := Some(audioBuffer[..numRead]);
    }
  }
}
