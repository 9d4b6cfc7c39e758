/**
 * One client connection: `Porcupine1EventHandler`. It keeps the audio not
 * yet framed, the `detected` flag, the bound detector with the frame format
 * and size derived from it, and (as `written`) every event it has written to
 * the client.
 */
module Handler {
  import opened Wrappers
  import opened Pcm
  import opened Framing
  import opened Porcupine
  import opened Wyoming

  /** The keyword name every detection is reported under; the handler does not map the index. */
  const DetectionName := "alexa"

  /** `"h" * count`: the struct format of `count` signed 16-bit samples. */
  function ShortFormat(count: nat): (format: string)
    ensures |format| == count && forall i :: 0 <= i < count ==> format[i] == 'h'
  {
    seq(count, _ => 'h')
  }

  /**
   * The events written while `frames` are fed, in order, to an engine that
   * had already been fed `prior`: a detection for each frame on which it
   * reports a keyword.
   */
  function Detections(engine: Engine, prior: seq<Frame>, frames: seq<Frame>, ts: Option<int>): seq<OutEvent>
  {
    if frames == [] then []
    else
      Detections(engine, prior, frames[..|frames| - 1], ts)
        + (if engine.respond(prior + frames) >= 0 then [Detection(DetectionName, ts)] else [])
  }

  /** What the engine returns for frame `i` of `frames`, fed after `prior`. */
  function Response(engine: Engine, prior: seq<Frame>, frames: seq<Frame>, i: nat): int
    requires i < |frames|
  {
    engine.respond(prior + frames[..i + 1])
  }

  /**
   * Exactly one detection is written per frame on which the engine reports
   * a keyword, in frame order, and none for the other frames: detection `j`
   * stands for frame `at[j]`. Every detection carries the fixed name and the
   * chunk's timestamp.
   */
  lemma {:induction false} DetectionsAt(engine: Engine, prior: seq<Frame>, frames: seq<Frame>, ts: Option<int>)
    returns (at: seq<nat>)
    ensures |at| == |Detections(engine, prior, frames, ts)|
    ensures forall j :: 0 <= j < |at| ==> at[j] < |frames| && Response(engine, prior, frames, at[j]) >= 0
    ensures forall j, k :: 0 <= j < k < |at| ==> at[j] < at[k]
    ensures forall i :: 0 <= i < |frames| && Response(engine, prior, frames, i) >= 0 ==> i in at
    ensures forall ev :: ev in Detections(engine, prior, frames, ts) ==> ev == Detection(DetectionName, ts)
  {
    if frames == [] {
      at := [];
    } else {
      var n := |frames| - 1;
      var init := frames[..n];
      at := DetectionsAt(engine, prior, init, ts);
      assert frames[..n + 1] == frames;
      forall i | 0 <= i < n
        ensures Response(engine, prior, frames, i) == Response(engine, prior, init, i)
      {
        assert frames[..i + 1] == init[..i + 1];
      }
      if engine.respond(prior + frames) >= 0 {
        at := at + [n];
      }
    }
  }

  /** Feeding two runs of frames one after the other writes the detections of each. */
  lemma {:induction false} DetectionsSplit(engine: Engine, prior: seq<Frame>, f1: seq<Frame>, f2: seq<Frame>, ts: Option<int>)
    ensures Detections(engine, prior, f1 + f2, ts)
            == Detections(engine, prior, f1, ts) + Detections(engine, prior + f1, f2, ts)
  {
    if f2 == [] {
      assert f1 + f2 == f1;
    } else {
      var n := |f2| - 1;
      DetectionsSplit(engine, prior, f1, f2[..n], ts);
      assert (f1 + f2)[..|f1 + f2| - 1] == f1 + f2[..n];
      assert prior + (f1 + f2) == (prior + f1) + f2;
    }
  }

  /** How many detections are written does not depend on the timestamp. */
  lemma {:induction false} DetectionsCountIgnoresTime(engine: Engine, prior: seq<Frame>, frames: seq<Frame>, ts: Option<int>, ts': Option<int>)
    ensures |Detections(engine, prior, frames, ts)| == |Detections(engine, prior, frames, ts')|
  {
    if frames != [] {
      DetectionsCountIgnoresTime(engine, prior, frames[..|frames| - 1], ts, ts');
    }
  }

  /** The handler's mutable fields, as one value. */
  datatype Session = Session(
    audioBuffer: seq<byte>,
    detected: bool,
    detector: Option<Detector>,
    chunkFormat: string,
    bytesPerChunk: int,
    written: seq<OutEvent>)

  /**
   * What the handler keeps true: the frame size is two bytes per sample of
   * the format, the format matches the bound detector's frame length, and
   * `detected` is never set.
   */
  ghost predicate Consistent(s: Session)
  {
    && !s.detected
    && s.bytesPerChunk == 2 * |s.chunkFormat|
    && s.chunkFormat == ShortFormat(|s.chunkFormat|)
    && (s.detector.Some? ==> |s.chunkFormat| == s.detector.value.engine.frameLength)
  }

  /** `_load_keyword` once `get_porcupine` has returned `d`. */
  function Bind(s: Session, d: Detector): (r: Session)
    ensures r.detector == Some(d)
    ensures |r.chunkFormat| == d.engine.frameLength && r.bytesPerChunk == 2 * |r.chunkFormat|
    ensures forall i :: 0 <= i < |r.chunkFormat| ==> r.chunkFormat[i] == 'h'
    ensures r.audioBuffer == s.audioBuffer && r.detected == s.detected && r.written == s.written
  {
    s.(detector := Some(d),
       chunkFormat := ShortFormat(d.engine.frameLength),
       bytesPerChunk := d.engine.frameLength * 2)
  }

  /** The drain loop: every whole frame of the buffer goes, in order, to the detector. */
  function Drained(s: Session, ts: Option<int>): Session
    requires s.detector.Some?
  {
    var d := s.detector.value;
    var n := d.engine.frameLength;
    var frames := DecodeFrames(FramesOf(s.audioBuffer, 2 * n), n);
    s.(audioBuffer := Leftover(s.audioBuffer, 2 * n),
       detector := Some(d.(fed := d.fed + frames)),
       written := s.written + Detections(d.engine, d.fed, frames, ts))
  }

  /** Binding a detector and draining both keep the handler consistent; draining leaves less than a frame. */
  lemma StepsKeepConsistent(s: Session, d: Detector, ts: Option<int>)
    requires Consistent(s)
    ensures Consistent(Bind(s, d))
    ensures s.detector.Some? ==> Consistent(Drained(s, ts)) && |Drained(s, ts).audioBuffer| < s.bytesPerChunk
  {
  }

  /**
   * Draining hands the detector, after the frames it had, the decoded
   * frames of the buffer, |buffer| / B of them for a frame of B bytes, and
   * keeps the last |buffer| % B bytes.
   */
  lemma DrainFeedsEveryFrame(s: Session, ts: Option<int>)
    requires Consistent(s) && s.detector.Some?
    ensures var d := s.detector.value;
            var fed := Drained(s, ts).detector.value.fed;
            var size := s.bytesPerChunk;
            && size == 2 * d.engine.frameLength
            && fed == d.fed + DecodeFrames(FramesOf(s.audioBuffer, size), d.engine.frameLength)
            && |fed| == |d.fed| + |s.audioBuffer| / size
            && |s.audioBuffer| % size <= |s.audioBuffer|
            && Drained(s, ts).audioBuffer == s.audioBuffer[|s.audioBuffer| - |s.audioBuffer| % size..]
  {
    var size: Pos := s.bytesPerChunk;
    FramesCount(s.audioBuffer, size);
    LeftoverSuffix(s.audioBuffer, size);
  }

  /**
   * Where the stream is cut into chunks does not matter to the detector:
   * appending `a` and draining, then appending `b` and draining, feeds it the
   * same frames and leaves the same bytes as appending `a + b` and draining
   * once.
   */
  lemma TwoChunksFeedAsOne(s: Session, a: seq<byte>, b: seq<byte>, ts1: Option<int>, ts2: Option<int>, ts: Option<int>)
    requires s.detector.Some?
    ensures var once := Drained(s.(audioBuffer := s.audioBuffer + a), ts1);
            var twice := Drained(once.(audioBuffer := once.audioBuffer + b), ts2);
            var whole := Drained(s.(audioBuffer := s.audioBuffer + a + b), ts);
            twice.detector == whole.detector && twice.audioBuffer == whole.audioBuffer
  {
    var d := s.detector.value;
    var n := d.engine.frameLength;
    var x := s.audioBuffer + a;
    var f1 := DecodeFrames(FramesOf(x, 2 * n), n);
    var f2 := DecodeFrames(FramesOf(Leftover(x, 2 * n) + b, 2 * n), n);
    DecodedAcrossChunks(x, b, n);
    AppendAssoc(d.fed, f1, f2);
    FramesAcrossChunks(x, b, 2 * n);
  }

  /**
   * Nor does it matter to what is written: as many detections as for the
   * whole stream, and the very same ones when the chunks carry the same
   * timestamp.
   */
  lemma TwoChunksDetectAsOne(s: Session, a: seq<byte>, b: seq<byte>, ts1: Option<int>, ts2: Option<int>, ts: Option<int>)
    requires s.detector.Some?
    ensures var once := Drained(s.(audioBuffer := s.audioBuffer + a), ts1);
            var twice := Drained(once.(audioBuffer := once.audioBuffer + b), ts2);
            var whole := Drained(s.(audioBuffer := s.audioBuffer + a + b), ts);
            && |twice.written| == |whole.written|
            && (ts1 == ts2 == ts ==> twice.written == whole.written)
  {
    var d := s.detector.value;
    var n := d.engine.frameLength;
    var x := s.audioBuffer + a;
    assert x + b == s.audioBuffer + a + b;
    var f1 := DecodeFrames(FramesOf(x, 2 * n), n);
    var f2 := DecodeFrames(FramesOf(Leftover(x, 2 * n) + b, 2 * n), n);
    var f := DecodeFrames(FramesOf(x + b, 2 * n), n);
    assert f1 + f2 == f by {
      DecodedAcrossChunks(x, b, n);
    }
    DetectionsSplit(d.engine, d.fed, f1, f2, ts);
    DetectionsCountIgnoresTime(d.engine, d.fed, f1, ts1, ts);
    DetectionsCountIgnoresTime(d.engine, d.fed + f1, f2, ts2, ts);
  }

  /** One turn of the drain loop keeps its invariant. */
  lemma DrainStep(whole: seq<byte>, done: seq<seq<byte>>, buffer: seq<byte>, size: Pos)
    requires FramesOf(whole, size) == done + FramesOf(buffer, size)
    requires Leftover(whole, size) == Leftover(buffer, size)
    requires |buffer| >= size
    ensures FramesOf(whole, size) == (done + [buffer[..size]]) + FramesOf(buffer[size..], size)
    ensures Leftover(whole, size) == Leftover(buffer[size..], size)
  {
    var frame := buffer[..size];
    var rest := FramesOf(buffer[size..], size);
    assert FramesOf(buffer, size) == [frame] + rest;
    assert done + ([frame] + rest) == (done + [frame]) + rest;
  }

  /** Feeding one more frame writes one more detection exactly when the engine reports a keyword. */
  lemma DetectionsSnoc(engine: Engine, prior: seq<Frame>, frames: seq<Frame>, frame: Frame, ts: Option<int>)
    ensures Detections(engine, prior, frames + [frame], ts)
            == Detections(engine, prior, frames, ts)
               + (if engine.respond(prior + frames + [frame]) >= 0 then [Detection(DetectionName, ts)] else [])
  {
    assert (frames + [frame])[..|frames|] == frames;
    assert prior + (frames + [frame]) == prior + frames + [frame];
  }

  /** What `handle_event` returns, or the error it raises. */
  datatype Reply = Returned(keepGoing: bool) | Raised(error: LoadError)

  class EventHandler {
    const info: Info
    const sensitivity: real
    const state: State
    /** The converter to 16 kHz, 16-bit, mono (`AudioChunkConverter.convert`). */
    const convert: AudioChunk -> AudioChunk

    var audioBuffer: seq<byte>
    var detected: bool
    var detector: Option<Detector>
    var chunkFormat: string
    var bytesPerChunk: int
    var written: seq<OutEvent>

    ghost function Snapshot(): Session
      reads this
    {
      Session(audioBuffer, detected, detector, chunkFormat, bytesPerChunk, written)
    }

    ghost predicate Valid()
      reads this
    {
      Consistent(Snapshot())
    }

    constructor (info: Info, sensitivity: real, state: State, convert: AudioChunk -> AudioChunk)
      ensures Valid()
      ensures this.info == info && this.sensitivity == sensitivity && this.state == state && this.convert == convert
      ensures Snapshot() == Session([], false, None, "", 0, [])
    {
      this.info := info;
      this.sensitivity := sensitivity;
      this.state := state;
      this.convert := convert;
      audioBuffer := [];
      detected := false;
      detector := None;
      chunkFormat := "";
      bytesPerChunk := 0;
      written := [];
    }

    /** `_load_keyword`: load a detector and take the frame format from it. */
    method LoadKeyword() returns (error: Option<LoadError>)
      requires Valid()
      modifies this
      ensures Valid()
      ensures match DetectorFor(state, sensitivity)
              case Success(d) => error.None? && Snapshot() == Bind(old(Snapshot()), d)
              case Failure(e) => error == Some(e) && Snapshot() == old(Snapshot())
    {
      var r := GetPorcupine(state, sensitivity);
      if r.Failure? {
        return Some(r.error);
      }
      detector := Some(r.value);
      chunkFormat := ShortFormat(r.value.engine.frameLength);
      bytesPerChunk := r.value.engine.frameLength * 2;
      error := None;
    }

    /** The `while len(self.audio_buffer) >= self.bytes_per_chunk` loop of `handle_event`. */
    method Drain(ts: Option<int>)
      requires Valid() && detector.Some?
      modifies this
      ensures Valid()
      ensures Snapshot() == Drained(old(Snapshot()), ts)
    {
      ghost var s0 := Snapshot();
      ghost var d0 := detector.value;
      ghost var n := d0.engine.frameLength;
      ghost var size: Pos := 2 * n;
      ghost var done: seq<seq<byte>> := [];
      while |audioBuffer| >= bytesPerChunk
        invariant Valid() && detector.Some?
        invariant detector.value.engine == d0.engine && detector.value.sensitivity == d0.sensitivity
        invariant chunkFormat == s0.chunkFormat && bytesPerChunk == size && detected == s0.detected
        invariant forall i :: 0 <= i < |done| ==> |done[i]| == size
        invariant FramesOf(s0.audioBuffer, size) == done + FramesOf(audioBuffer, size)
        invariant Leftover(s0.audioBuffer, size) == Leftover(audioBuffer, size)
        invariant detector.value.fed == d0.fed + DecodeFrames(done, n)
        invariant written == s0.written + Detections(d0.engine, d0.fed, DecodeFrames(done, n), ts)
        decreases |audioBuffer|
      {
        var frame := audioBuffer[..bytesPerChunk];
        var unpackedChunk := UnpackFrom(|chunkFormat|, frame);
        var result := Process(detector.value, unpackedChunk);
        DrainStep(s0.audioBuffer, done, audioBuffer, size);
        DecodeFramesAppend(done, [frame], n);
        assert DecodeFrames([frame], n) == [unpackedChunk];
        AppendAssoc(d0.fed, DecodeFrames(done, n), [unpackedChunk]);
        DetectionsSnoc(d0.engine, d0.fed, DecodeFrames(done, n), unpackedChunk, ts);
        detector := Some(result.0);
        if result.1 >= 0 {
          AppendAssoc(s0.written, Detections(d0.engine, d0.fed, DecodeFrames(done, n), ts), [Detection(DetectionName, ts)]);
          written := written + [Detection(DetectionName, ts)];
        }
        done := done + [frame];
        audioBuffer := audioBuffer[bytesPerChunk..];
      }
      assert FramesOf(audioBuffer, size) == [] && Leftover(audioBuffer, size) == audioBuffer;
      assert done == FramesOf(s0.audioBuffer, size);
    }

    /** `handle_event`. */
    method HandleEvent(event: Event) returns (r: Reply)
      requires Valid()
      modifies this
      ensures Valid()
      ensures event.Describe? ==>
                r == Returned(true) && Snapshot() == old(Snapshot()).(written := old(written) + [InfoEvent(info)])
      ensures event.Detect? && (event.names.None? || event.names.value == []) ==>
                r == Returned(true) && Snapshot() == old(Snapshot())
      ensures event.Detect? && event.names.Some? && event.names.value != [] ==>
                match DetectorFor(state, sensitivity)
                case Success(d) => r == Returned(true) && Snapshot() == Bind(old(Snapshot()), d)
                case Failure(e) => r == Raised(e) && Snapshot() == old(Snapshot())
      ensures event.AudioStart? ==>
                r == Returned(true) && Snapshot() == old(Snapshot()).(detected := false)
      ensures event.AudioChunkEvent? && old(detector).Some? ==>
                var chunk := convert(event.chunk);
                r == Returned(true)
                && Snapshot() == Drained(old(Snapshot()).(audioBuffer := old(audioBuffer) + chunk.audio), chunk.timestamp)
      ensures event.AudioChunkEvent? && old(detector).None? ==>
                var chunk := convert(event.chunk);
                match DetectorFor(state, sensitivity)
                case Success(d) =>
                  r == Returned(true)
                  && Snapshot() == Drained(Bind(old(Snapshot()), d).(audioBuffer := old(audioBuffer) + chunk.audio), chunk.timestamp)
                case Failure(e) => r == Raised(e) && Snapshot() == old(Snapshot())
      ensures event.AudioChunkEvent? && r.Returned? ==>
                detector.Some? && bytesPerChunk == 2 * detector.value.engine.frameLength && |audioBuffer| < bytesPerChunk
      ensures event.AudioStop? ==>
                r == Returned(false)
                && Snapshot() == old(Snapshot()).(written := old(written) + if old(detected) then [] else [NotDetected])
      ensures event.AudioStop? ==> written == old(written) + [NotDetected]
      ensures event.Unexpected? ==> r == Returned(true) && Snapshot() == old(Snapshot())
    {
      if event.Describe? {
        written := written + [InfoEvent(info)];
        return Returned(true);
      }
      if event.Detect? {
        if event.names.Some? && event.names.value != [] {
          var error := LoadKeyword();
          if error.Some? {
            return Raised(error.value);
          }
        }
      } else if event.AudioStart? {
        detected := false;
      } else if event.AudioChunkEvent? {
        if detector.None? {
          var error := LoadKeyword();
          if error.Some? {
            return Raised(error.value);
          }
        }
        var chunk := convert(event.chunk);
        audioBuffer := audioBuffer + chunk.audio;
        Drain(chunk.timestamp);
        StepsKeepConsistent(old(Snapshot()), detector.value, chunk.timestamp);
      } else if event.AudioStop? {
        if !detected {
          written := written + [NotDetected];
        }
        return Returned(false);
      }
      return Returned(true);
    }

    /** `disconnect`: drop the detector. */
    method Disconnect()
      requires Valid()
      modifies this
      ensures Valid()
      ensures Snapshot() == old(Snapshot()).(detector := None)
    {
      if detector.Some? {
        detector := None;
      }
    }
  }
}
