/**
 * Cutting a byte stream into detector frames. The handler appends each
 * converted chunk to its buffer and then, while the buffer holds at least one
 * frame, takes the leading frame off it; what is left waits for the next
 * chunk. `FramesOf` is the list of frames so taken and `Leftover` what stays.
 */
module Framing {
  import opened Pcm

  type Pos = n: int | 0 < n witness 1

  /** The whole frames of `data`, front to back. */
  function FramesOf(data: seq<byte>, size: Pos): (frames: seq<seq<byte>>)
    ensures forall i :: 0 <= i < |frames| ==> |frames[i]| == size
    decreases |data|
  {
    if |data| < size then [] else [data[..size]] + FramesOf(data[size..], size)
  }

  /** The bytes that remain once every whole frame is taken off `data`. */
  function Leftover(data: seq<byte>, size: Pos): (rest: seq<byte>)
    ensures |rest| < size
    decreases |data|
  {
    if |data| < size then data else Leftover(data[size..], size)
  }

  function Concat(frames: seq<seq<byte>>): seq<byte>
  {
    if frames == [] then [] else frames[0] + Concat(frames[1..])
  }

  /**
   * Joining sequences is associative. Stating it as a lemma keeps the
   * solver from proving it element by element inside larger proofs.
   */
  lemma AppendAssoc<T>(p: seq<T>, q: seq<T>, r: seq<T>)
    ensures p + q + r == p + (q + r)
  {
  }

  /** The frames, in order, followed by the leftover are the data again. */
  lemma {:induction false} FramesReassemble(data: seq<byte>, size: Pos)
    ensures Concat(FramesOf(data, size)) + Leftover(data, size) == data
    decreases |data|
  {
    if |data| >= size {
      var head, tail := data[..size], data[size..];
      var frames := FramesOf(data, size);
      assert frames[0] == head && frames[1..] == FramesOf(tail, size);
      FramesReassemble(tail, size);
      AppendAssoc(head, Concat(FramesOf(tail, size)), Leftover(tail, size));
      assert head + tail == data;
    }
  }

  /** The sign of a product with a positive factor. */
  lemma {:induction false} MulSign(k: int, size: Pos)
    ensures k >= 1 ==> k * size >= size
    ensures k <= -1 ==> k * size + size <= 0
    decreases if k < 0 then -k else k
  {
    if k > 1 {
      MulSign(k - 1, size);
      assert k * size == (k - 1) * size + size;
    } else if k < -1 {
      MulSign(k + 1, size);
      assert k * size + size == (k + 1) * size;
    }
  }

  lemma DivUnique(x: int, size: Pos, q: int, r: int)
    requires x == q * size + r && 0 <= r < size
    ensures x / size == q && x % size == r
  {
    var q', r' := x / size, x % size;
    assert x == q' * size + r' && 0 <= r' < size;
    assert (q' - q) * size == r - r';
    MulSign(q' - q, size);
  }

  /** There are |data| / size frames and |data| % size bytes left over. */
  lemma {:induction false} FramesCount(data: seq<byte>, size: Pos)
    ensures |FramesOf(data, size)| * size + |Leftover(data, size)| == |data|
    ensures |FramesOf(data, size)| == |data| / size
    ensures |Leftover(data, size)| == |data| % size
    decreases |data|
  {
    var n := |FramesOf(data, size)|;
    if |data| >= size {
      var tail := data[size..];
      FramesCount(tail, size);
      assert n == |FramesOf(tail, size)| + 1;
      assert n * size == |FramesOf(tail, size)| * size + size;
    }
    DivUnique(|data|, size, n, |Leftover(data, size)|);
  }

  /** What stays in the buffer is the last |data| % size bytes of the data. */
  lemma LeftoverSuffix(data: seq<byte>, size: Pos)
    ensures |data| % size <= |data|
    ensures Leftover(data, size) == data[|data| - |data| % size..]
  {
    FramesCount(data, size);
    FramesReassemble(data, size);
    var c := Concat(FramesOf(data, size));
    assert data[|c|..] == Leftover(data, size);
  }

  /** Frame `i` is bytes `i * size` up to `(i + 1) * size` of the data. */
  lemma {:induction false} FrameAt(data: seq<byte>, size: Pos, i: nat)
    requires i < |FramesOf(data, size)|
    ensures 0 <= i * size && (i + 1) * size <= |data|
    ensures FramesOf(data, size)[i] == data[i * size..(i + 1) * size]
    decreases |data|
  {
    if i > 0 {
      FrameAt(data[size..], size, i - 1);
      assert (i - 1) * size + size == i * size;
      assert i * size + size == (i + 1) * size;
    }
  }

  /**
   * Framing does not depend on where the stream was cut into chunks: taking
   * the frames of `x`, then the frames of its leftover followed by `y`, takes
   * the frames of `x + y`, and leaves the same bytes over.
   */
  lemma {:induction false} FramesAcrossChunks(x: seq<byte>, y: seq<byte>, size: Pos)
    ensures FramesOf(x, size) + FramesOf(Leftover(x, size) + y, size) == FramesOf(x + y, size)
    ensures Leftover(Leftover(x, size) + y, size) == Leftover(x + y, size)
    decreases |x|
  {
    if |x| >= size {
      var tail := x[size..];
      FramesAcrossChunks(tail, y, size);
      assert (x + y)[..size] == x[..size];
      assert (x + y)[size..] == tail + y;
      assert FramesOf(x + y, size) == [x[..size]] + FramesOf(tail + y, size);
      assert FramesOf(x, size) == [x[..size]] + FramesOf(tail, size);
      assert Leftover(x, size) == Leftover(tail, size);
    }
  }

  /** The samples of each frame of `frames`, each frame holding `count` of them. */
  function DecodeFrames(frames: seq<seq<byte>>, count: nat): (decoded: seq<Frame>)
    requires forall i :: 0 <= i < |frames| ==> |frames[i]| == 2 * count
    ensures |decoded| == |frames|
  {
    seq(|frames|, i requires 0 <= i < |frames| => UnpackFrom(count, frames[i]))
  }

  /** Decoding distributes over joining runs of frames. */
  lemma DecodeFramesAppend(f1: seq<seq<byte>>, f2: seq<seq<byte>>, count: nat)
    requires forall i :: 0 <= i < |f1| ==> |f1[i]| == 2 * count
    requires forall i :: 0 <= i < |f2| ==> |f2[i]| == 2 * count
    ensures DecodeFrames(f1 + f2, count) == DecodeFrames(f1, count) + DecodeFrames(f2, count)
  {
    var joined := f1 + f2;
    assert forall i :: 0 <= i < |f2| ==> joined[|f1| + i] == f2[i];
  }

  /** The decoded frames of a stream cut in two are those of the whole stream. */
  lemma DecodedAcrossChunks(x: seq<byte>, y: seq<byte>, count: Pos)
    ensures DecodeFrames(FramesOf(x, 2 * count), count) + DecodeFrames(FramesOf(Leftover(x, 2 * count) + y, 2 * count), count)
            == DecodeFrames(FramesOf(x + y, 2 * count), count)
  {
    FramesAcrossChunks(x, y, 2 * count);
    DecodeFramesAppend(FramesOf(x, 2 * count), FramesOf(Leftover(x, 2 * count) + y, 2 * count), count);
  }

  /**
   * Frame `i` of a stream decodes to `count` samples, sample `j` from stream
   * bytes `i * 2count + 2j` and `i * 2count + 2j + 1`.
   */
  lemma DecodedSample(data: seq<byte>, count: Pos, i: nat, j: nat)
    requires i < |FramesOf(data, 2 * count)| && j < count
    ensures |DecodeFrames(FramesOf(data, 2 * count), count)[i]| == count
    ensures i * (2 * count) + 2 * j + 1 < |data|
    ensures DecodeFrames(FramesOf(data, 2 * count), count)[i][j]
            == DecodeShort(data[i * (2 * count) + 2 * j], data[i * (2 * count) + 2 * j + 1])
  {
    FrameAt(data, 2 * count, i);
    var frames := FramesOf(data, 2 * count);
    assert DecodeFrames(frames, count)[i] == UnpackFrom(count, frames[i]);
  }
}
