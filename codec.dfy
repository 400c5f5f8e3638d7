/** The sample codec: converts between the I2S byte buffer (stereo frames of two
    32-bit little-endian words, the 24-bit sample left-justified in each word)
    and signed 24-bit samples.

    Python integer operators are written out on unbounded integers:
    `x >> k` is floor division by 2^k, which is Dafny's `/` by a positive
    divisor, and `x & 0xFF` is `x % 256` for every integer, negative ones too. */
module Codec {

  /** One element of a Python `bytearray`. */
  type Byte = b: int | 0 <= b < 256

  /** Bytes per stereo frame: one 32-bit word per channel. */
  const FRAME_BYTES: nat := 8
  /** 2^32, the modulus of a hardware word. */
  const WORD: int := 0x1_0000_0000
  /** 2^31: words at or above it are negative in two's complement. */
  const SIGN_BIT: int := 0x8000_0000
  /** Range of a 24-bit two's-complement sample. */
  const SAMPLE_MIN: int := -0x80_0000
  const SAMPLE_MAX: int := 0x7F_FFFF

  predicate IsSample(v: int) {
    SAMPLE_MIN <= v <= SAMPLE_MAX
  }

  /** `b0 | (b1 << 8) | (b2 << 16) | (b3 << 24)`: the four bytes occupy disjoint
      bit ranges, so the ORs are sums. */
  function Word(b0: Byte, b1: Byte, b2: Byte, b3: Byte): (w: int)
    ensures 0 <= w < WORD
    ensures w % 0x100 == b0
  {
    b0 + b1 * 0x100 + b2 * 0x1_0000 + b3 * 0x100_0000
  }

  /** Reinterprets a word as two's complement (`if w >= 0x80000000: w -= 0x100000000`). */
  function ToSigned(w: int): (x: int)
    ensures 0 <= w < WORD ==> -SIGN_BIT <= x < SIGN_BIT && (x == w || x == w - WORD)
  {
    if w >= SIGN_BIT then w - WORD else w
  }

  /** Decodes one channel word: assemble, fix the sign, drop the 8 padding bits
      with an arithmetic shift (`>> 8`). */
  function DecodeChannel(b0: Byte, b1: Byte, b2: Byte, b3: Byte): (v: int)
    ensures IsSample(v)
    ensures v * 0x100 <= ToSigned(Word(b0, b1, b2, b3)) < v * 0x100 + 0x100
  {
    ToSigned(Word(b0, b1, b2, b3)) / 0x100
  }

  /** Decodes the channel whose word starts at byte `idx` of the buffer. */
  function DecodeAt(buf: seq<Byte>, idx: nat): (v: int)
    requires idx + 4 <= |buf|
    ensures IsSample(v)
  {
    DecodeChannel(buf[idx], buf[idx + 1], buf[idx + 2], buf[idx + 3])
  }

  /** Wraps a negative shifted sample into the unsigned layout (`if x < 0: x += 0x100000000`). */
  function ToUnsigned(x: int): (w: int)
    ensures -SIGN_BIT <= x < SIGN_BIT ==> 0 <= w < WORD && (w == x || w == x + WORD)
  {
    if x < 0 then x + WORD else x
  }

  /** Encodes one output sample: `<< 8`, wrap negatives, then the four bytes
      `w & 0xFF`, `(w >> 8) & 0xFF`, `(w >> 16) & 0xFF`, `(w >> 24) & 0xFF`.
      The padding byte is always zero, whatever the sample. */
  function EncodeChannel(v: int): (bs: seq<Byte>)
    ensures |bs| == 4
    ensures bs[0] == 0
  {
    var w := ToUnsigned(v * 0x100);
    assert w % 0x100 == 0 by {
      var q := if v * 0x100 < 0 then v + 0x100_0000 else v;
      assert w == q * 0x100;
    }
    [w % 0x100, (w / 0x100) % 0x100, (w / 0x1_0000) % 0x100, (w / 0x100_0000) % 0x100]
  }

  /** Splitting a word into its four little-endian bytes and reassembling them
      gives the word back. */
  lemma WordOfBytes(w: int)
    requires 0 <= w < WORD
    ensures Word(w % 0x100, (w / 0x100) % 0x100, (w / 0x1_0000) % 0x100, (w / 0x100_0000) % 0x100) == w
  {
    var q1 := w / 0x100;
    var q2 := q1 / 0x100;
    var q3 := q2 / 0x100;
    assert w == w % 0x100 + q1 * 0x100;
    assert q1 == q1 % 0x100 + q2 * 0x100;
    assert q2 == q2 % 0x100 + q3 * 0x100;
    assert q2 == w / 0x1_0000;
    assert q3 == w / 0x100_0000;
    assert q3 < 0x100;
  }

  /** Round trip: every 24-bit sample survives encoding and decoding. */
  lemma EncodeDecode(v: int)
    requires IsSample(v)
    ensures var bs := EncodeChannel(v); DecodeChannel(bs[0], bs[1], bs[2], bs[3]) == v
  {
    var w := ToUnsigned(v * 0x100);
    WordOfBytes(w);
    var bs := EncodeChannel(v);
    assert Word(bs[0], bs[1], bs[2], bs[3]) == w;
    assert ToSigned(w) == v * 0x100;
  }

  /** Reading the bytes back out of an assembled word gives each byte. */
  lemma BytesOfWord(b0: Byte, b1: Byte, b2: Byte, b3: Byte)
    ensures var w := Word(b0, b1, b2, b3);
            && w % 0x100 == b0 && (w / 0x100) % 0x100 == b1
            && (w / 0x1_0000) % 0x100 == b2 && (w / 0x100_0000) % 0x100 == b3
  {
    var w := Word(b0, b1, b2, b3);
    var q1 := b1 + b2 * 0x100 + b3 * 0x1_0000;
    var q2 := b2 + b3 * 0x100;
    assert w == b0 + q1 * 0x100;
    assert w / 0x100 == q1;
    assert q1 == b1 + q2 * 0x100;
    assert q1 % 0x100 == b1;
    assert w / 0x1_0000 == q2 by {
      assert w == (b0 + b1 * 0x100) + q2 * 0x1_0000;
    }
    assert q2 % 0x100 == b2;
    assert w / 0x100_0000 == b3 by {
      assert w == (b0 + b1 * 0x100 + b2 * 0x1_0000) + b3 * 0x100_0000;
    }
  }

  /** Round trip the other way: a word whose padding byte is zero is
      reproduced exactly by decoding and re-encoding it. */
  lemma DecodeEncode(b0: Byte, b1: Byte, b2: Byte, b3: Byte)
    requires b0 == 0
    ensures EncodeChannel(DecodeChannel(b0, b1, b2, b3)) == [b0, b1, b2, b3]
  {
    var w := Word(b0, b1, b2, b3);
    BytesOfWord(b0, b1, b2, b3);
    var q1 := b1 + b2 * 0x100 + b3 * 0x1_0000;
    assert w == q1 * 0x100;
    var x := ToSigned(w);
    var s := if w >= SIGN_BIT then q1 - 0x100_0000 else q1;
    assert x == s * 0x100;
    assert DecodeChannel(b0, b1, b2, b3) == s;
    assert ToUnsigned(s * 0x100) == w;
  }
}
