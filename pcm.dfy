/**
 * 16-bit signed PCM: the sample format the detector is fed. The converter
 * delivers little-endian bytes, and `struct`'s native order on the hosts the
 * server runs on is little-endian, so a sample is its low byte followed by
 * its high byte.
 */
module Pcm {

  /** An octet of the audio stream. */
  type byte = b: int | 0 <= b < 0x100

  /** A signed 16-bit sample. */
  type Short = x: int | -0x8000 <= x < 0x8000

  /** The samples of one detector frame. */
  type Frame = seq<Short>

  /** The sample stored in bytes `lo`, `hi` (two's complement). */
  function DecodeShort(lo: byte, hi: byte): (s: Short)
    ensures s < 0 <==> hi >= 0x80
    ensures (s + 0x1_0000) % 0x1_0000 == lo + 0x100 * hi
  {
    var u := lo + 0x100 * hi;
    if u < 0x8000 then u else u - 0x1_0000
  }

  /** The two bytes, low first, that store sample `s`. */
  function EncodeShort(s: Short): (bytes: (byte, byte))
  {
    var u := if s < 0 then s + 0x1_0000 else s;
    (u % 0x100, u / 0x100)
  }

  lemma DecodeEncode(s: Short)
    ensures DecodeShort(EncodeShort(s).0, EncodeShort(s).1) == s
  {
  }

  lemma EncodeDecode(lo: byte, hi: byte)
    ensures EncodeShort(DecodeShort(lo, hi)) == (lo, hi)
  {
  }

  /**
   * `struct.unpack_from("h" * count, data)`: the first `count` samples
   * stored in `data`, sample `j` in bytes `2j` and `2j + 1`.
   */
  function UnpackFrom(count: nat, data: seq<byte>): (samples: Frame)
    requires 2 * count <= |data|
    ensures |samples| == count
    ensures forall j :: 0 <= j < count ==> samples[j] == DecodeShort(data[2 * j], data[2 * j + 1])
  {
    if count == 0 then []
    else [DecodeShort(data[0], data[1])] + UnpackFrom(count - 1, data[2..])
  }

  /** `struct.pack("h" * len(samples), *samples)`: the inverse of unpacking. */
  function Pack(samples: seq<Short>): (data: seq<byte>)
    ensures |data| == 2 * |samples|
  {
    if samples == [] then []
    else [EncodeShort(samples[0]).0, EncodeShort(samples[0]).1] + Pack(samples[1..])
  }

  /** Unpacking what was packed gives back the samples. */
  lemma {:induction false} UnpackPack(samples: seq<Short>)
    ensures UnpackFrom(|samples|, Pack(samples)) == samples
  {
    if samples != [] {
      UnpackPack(samples[1..]);
      DecodeEncode(samples[0]);
      assert Pack(samples)[2..] == Pack(samples[1..]);
    }
  }

  /** Packing what was unpacked gives back the bytes: no byte is lost. */
  lemma {:induction false} PackUnpack(count: nat, data: seq<byte>)
    requires 2 * count <= |data|
    ensures Pack(UnpackFrom(count, data)) == data[..2 * count]
  {
    if count > 0 {
      PackUnpack(count - 1, data[2..]);
      EncodeDecode(data[0], data[1]);
      assert UnpackFrom(count, data)[1..] == UnpackFrom(count - 1, data[2..]);
      assert data[..2 * count] == [data[0], data[1]] + data[2..][..2 * (count - 1)];
    }
  }
}
