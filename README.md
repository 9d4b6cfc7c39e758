# wyoming-porcupine1 in Dafny

This project models the core of `wyoming-porcupine1`. That service answers
Wyoming protocol clients with wake-word detections made by Picovoice's
Porcupine engine. The model covers four parts:

- **Start-up discovery** (`main`). Engine libraries (`lib/common/*.pv`) are
  keyed by the last `_` field of their stem. Keyword files
  (`resources/<language>/<dir>/<stem>.ppn`) are kept only when the last `_`
  field of their stem (the whole stem if it has none) is the system. Each is
  keyed by the stem before its last `_` (the whole stem if it has none). The
  service description (`Info`) advertises one wake model per keyword. These
  parts are modelled in `resources.dfy` and `wyoming.dfy`.
- **Detector loading** (`State.get_porcupine`). The model paths of the
  English keywords are collected in dictionary order. An engine is created
  from the English library and those paths. Each failure the code can raise
  is a `LoadError`. This part is in `porcupine.dfy`.
- **One client connection** (`Porcupine1EventHandler`). This is a class with
  the handler's mutable fields: the audio buffer, the `detected` flag, the
  bound detector, the frame format, the frame size in bytes, and the events
  written so far. Its methods are `HandleEvent`, `LoadKeyword`, `Drain` (the
  frame loop inside `handle_event`) and `Disconnect`. This part is in
  `handler.dfy`.
- **Framing and decoding.** The buffer is cut into frames of `B` bytes, and
  `struct.unpack_from("h" * n, …)` decodes each frame as signed 16-bit
  samples. These parts are in `framing.dfy` and `pcm.dfy`.

Python dictionaries are insertion-ordered association lists, in
`dicts.dfy`. Assigning an existing key replaces its value in place;
assigning a new key appends it.

The native engine is modelled as a datatype with a frame length and a
response function. The response function is applied to every frame fed so
far, because the real engine keeps its own audio history. `pvporcupine.create`
is a function held in `State` that either yields an engine or fails. The
model assumes the engine reports `frame_length > 0`; with a frame length of
0 the frame size would be 0 and the source's drain loop would not terminate.
The audio converter is a function held by the handler.

Where the code departs from what its own comments and TODOs intend, and other details of the code:

- `detected` is never set to true. So an `AudioStop` always writes
  `NotDetected` and returns false. `Handler.Consistent` records this as
  `!detected`.
- Every detection is reported under the fixed name `"alexa"`, whatever
  keyword index the engine returns.
- A `Detect` event's names only decide whether a detector is loaded. The
  names themselves are ignored, and all English keywords are loaded.
- The `self.keywords is None` guard of `get_porcupine` cannot fire, because
  `keywords` is always a dictionary. An empty dictionary fails later, at
  `keywords_paths[0]`, which the model represents as `NoEnglishKeyword`.
- The `"h"` format uses native byte order. The model fixes it as
  little-endian.

## Model

| member | source | states |
|---|---|---|
| Dicts.Put | wyoming_porcupine1/__main__.py:139 | After `d[k] = v`, `k` maps to `v` and every other key keeps its value. The key order gains `k` at the end only if `k` was new. Keys stay unique. |
| Dicts.BuildLookup | wyoming_porcupine1/__main__.py:136-139 | A dictionary filled by successive assignments lacks `k` exactly when no assignment used `k`. Otherwise it maps `k` to the value of the last assignment to `k`. |
| Pcm.DecodeShort | wyoming_porcupine1/__main__.py:261-263 | Two bytes decode to the signed 16-bit sample `lo + 256*hi`, minus 65536 when the high bit is set. The sample is negative exactly when `hi >= 128`. |
| Pcm.UnpackFrom | wyoming_porcupine1/__main__.py:261-263 | `unpack_from("h"*n, data)` yields `n` samples. Sample `i` is decoded from bytes `2i` and `2i+1`. |
| Pcm.UnpackPack | wyoming_porcupine1/__main__.py:261-263 | Decoding the bytes of any samples gives those samples back. |
| Pcm.PackUnpack | wyoming_porcupine1/__main__.py:261-263 | Encoding the decoded samples gives back the first `2n` bytes of the input. |
| Framing.FramesReassemble | wyoming_porcupine1/__main__.py:260-293 | The frames taken by the loop, followed by the leftover, are the whole buffer. |
| Framing.FramesCount | wyoming_porcupine1/__main__.py:260-293 | The loop takes exactly `\|buffer\| / B` frames and leaves `\|buffer\| % B` bytes. |
| Framing.LeftoverSuffix | wyoming_porcupine1/__main__.py:293 | The bytes left are the suffix of the buffer of length `\|buffer\| % B`. |
| Framing.FrameAt | wyoming_porcupine1/__main__.py:260-262 | Frame `i` is bytes `[iB, (i+1)B)` of the buffer. |
| Framing.FramesAcrossChunks | wyoming_porcupine1/__main__.py:258-293 | Framing `x` and then framing its leftover followed by `y` gives the frames and the leftover of framing `x + y` at once. |
| Framing.DecodedAcrossChunks | wyoming_porcupine1/__main__.py:258-293 | The same holds after each frame is decoded to samples. |
| Framing.DecodedSample | wyoming_porcupine1/__main__.py:260-263 | Sample `j` of decoded frame `i` is the int16 decoded from bytes `iB+2j` and `iB+2j+1` of the buffer. |
| Porcupine.EnglishSelection | wyoming_porcupine1/__main__.py:82-87 | The collected model paths are exactly those of the keywords whose language is `"en"`, in dictionary order. |
| Porcupine.DetectorFor | wyoming_porcupine1/__main__.py:57-96 | A loaded detector has the requested sensitivity and has been fed no audio. Its engine is the one `create` makes from the `"en"` library and the English model paths, so a success implies both exist and creation succeeded. |
| Porcupine.Process | wyoming_porcupine1/__main__.py:278 | Processing a frame keeps the engine and the sensitivity, appends the frame to the audio fed so far, and returns the engine's response to all of that audio. |
| Porcupine.DetectorForOutcome | wyoming_porcupine1/__main__.py:82-96 | Loading raises for want of an English keyword exactly when there is none. It raises for want of the English library exactly when an English keyword exists but no `"en"` library does. Otherwise it succeeds exactly when the engine can be created from that library and those paths. |
| Porcupine.GetPorcupine | wyoming_porcupine1/__main__.py:57-96 | The loop over keywords and the calls after it return exactly `DetectorFor`: the detector, or the first error in code order. |
| Resources.LastIndexOf | wyoming_porcupine1/__main__.py:138 | Returns the position of the last occurrence of the character, or -1 exactly when it does not occur. |
| Resources.LastField | wyoming_porcupine1/__main__.py:138 | `split("_")[-1]` is a suffix of the stem with no `_` in it. A stem without `_` is its own last field. |
| Resources.InitField | wyoming_porcupine1/__main__.py:151 | `rsplit("_", 1)[0]` is a prefix of the stem. A stem without `_` is returned whole. Otherwise the prefix is followed by a `_` in the stem. |
| Resources.SplitRoundTrip | wyoming_porcupine1/__main__.py:146-151 | `rsplit("_", 1)[0]`, then `"_"`, then `split("_")[-1]` rebuilds a stem that contains `_`. A stem without `_` is both fields. |
| Resources.LoadLibraries | wyoming_porcupine1/__main__.py:136-139 | The library loop builds the table keyed by the last stem field. |
| Resources.LibraryLookup | wyoming_porcupine1/__main__.py:136-139 | A language has a library exactly when it is the last `_` field of some library stem (the whole stem when the stem has no `_`). Its path is that of the last such file. |
| Resources.LoadKeywords | wyoming_porcupine1/__main__.py:141-152 | The keyword loop builds the table from the files for the system and skips the others. |
| Resources.FilterSelection | wyoming_porcupine1/__main__.py:145-148 | The `continue` filter keeps a subsequence of the walked files: the kept files sit at strictly increasing positions of the walk, each accepted, and every accepted file is among them. |
| Resources.KeptMembers | wyoming_porcupine1/__main__.py:145-148 | A keyword file is kept exactly when it is one of the walked files and its stem's last field is the system. |
| Resources.KeywordEntriesKept | wyoming_porcupine1/__main__.py:145-152 | The loop makes one assignment per kept file, in walk order. Each assignment is keyed by the stem less the system suffix, with the grandparent directory as language. |
| Resources.KeywordTableEntry | wyoming_porcupine1/__main__.py:141-152 | Every keyword in the table comes from a file for the system and is keyed by its own name. |
| Resources.KeywordFileInTable | wyoming_porcupine1/__main__.py:141-152 | Every file for the system puts a keyword in the table under its stem less the suffix. |
| Resources.KeywordLookup | wyoming_porcupine1/__main__.py:145-152 | A kept file that no later kept file shares a name with is the one the table holds under that name: the last file walked wins. |
| Resources.KeywordNameSuffix | wyoming_porcupine1/__main__.py:146-151 | When the stem contains `_`, a kept keyword's name, followed by `_` and the system, is its file stem. |
| Wyoming.BuildInfo | wyoming_porcupine1/__main__.py:156-183 | The description holds one wake program, `porcupine1`, installed, at the service version, attributed to Picovoice, with one model per keyword. |
| Wyoming.WakeModels | wyoming_porcupine1/__main__.py:166-180 | The description lists one model per keyword, in dictionary order. |
| Wyoming.InfoAdvertisesKeywords | wyoming_porcupine1/__main__.py:156-183 | The description advertises one program. Each of its models carries its keyword's name as name and phrase, and its keyword's language as the only language. Its description is the name followed by the language in parentheses. Every model is at version `1.9.0`, attributed to Picovoice and marked installed. |
| Handler.DetectionsAt | wyoming_porcupine1/__main__.py:278-291 | Exactly one detection is written per frame for which the engine returns a non-negative index, in frame order. Every detection is `Detection("alexa", chunk timestamp)`. |
| Handler.DetectionsSplit | wyoming_porcupine1/__main__.py:260-293 | Feeding two runs of frames in turn writes the detections of the first run, then those of the second. |
| Handler.StepsKeepConsistent | wyoming_porcupine1/__main__.py:260-331 | Loading a detector and draining the buffer keep the frame size at twice the format length. The format stays `"h"` times the frame length. After draining, the buffer is shorter than one frame. |
| Handler.DrainFeedsEveryFrame | wyoming_porcupine1/__main__.py:260-293 | Draining feeds the detector the decoded frames of the buffer, `\|buffer\| / B` of them. The buffer keeps its last `\|buffer\| % B` bytes. |
| Handler.TwoChunksFeedAsOne | wyoming_porcupine1/__main__.py:256-293 | Two chunks handled one after the other feed the detector the same frames, and leave the same buffer, as their concatenation handled at once. |
| Handler.TwoChunksDetectAsOne | wyoming_porcupine1/__main__.py:256-293 | Two chunks handled in turn write as many detections as their concatenation. They write the same events when the timestamps agree. |
| Handler.Bind | wyoming_porcupine1/__main__.py:327-331 | Binding a detector sets the format to `"h"` once per sample of the engine's frame and the frame size to twice that. The buffer, `detected` and the written events are untouched. |
| Handler.EventHandler.constructor | wyoming_porcupine1/__main__.py:206-226 | A new handler has an empty buffer, `detected` false, no detector, an empty format, a frame size of 0, and nothing written. |
| Handler.EventHandler.LoadKeyword | wyoming_porcupine1/__main__.py:325-331 | On success the detector is bound, the format becomes `"h"` times the frame length, and the frame size becomes twice the frame length. On failure the error is raised and nothing changes. |
| Handler.EventHandler.Drain | wyoming_porcupine1/__main__.py:260-293 | The frame loop leaves the handler in the state `Drained` describes. |
| Handler.EventHandler.HandleEvent | wyoming_porcupine1/__main__.py:230-309 | The effect of each event:<br>• Describe writes the info, changes nothing else, and returns true.<br>• Detect without names (none, or an empty list) changes nothing and returns true. With names it loads a detector, and raises the load error when loading fails.<br>• AudioStart only resets `detected`.<br>• AudioChunk loads a detector if none is bound, appends the converted audio, and drains it, leaving less than one frame.<br>• AudioStop writes `NotDetected` when `detected` is false and returns false.<br>• Any other event changes nothing. |
| Handler.EventHandler.Disconnect | wyoming_porcupine1/__main__.py:311-318 | Only the detector changes, to none. |

## Left out

- The detector cache and its lock are left out. The cache code is commented out in the source, and the lock only serialises the `detector = None` assignment.
- The sensitivity is recorded in the detector but never reaches the engine, which matches the source's own commented-out call.
- Asynchronous I/O, the server and the transport are left out. Written events are collected in the handler's `written` field.
- Argument parsing, logging, platform detection and the directory walks (`glob`, `rglob`) are left out. Each discovered file is an input of the model: its path, stem and grandparent directory name.
- The internals of `AudioChunkConverter.convert` and of the Porcupine engine are left out, because they are foreign code. The converter is an arbitrary function. The engine's result is an arbitrary function of the audio fed to it.
- `client_id` is left out. It is only used in log messages.
- The debug log at line 88 is left out. Its `keywords_paths[0]` raises `IndexError` when no English keyword exists, and the model represents that failure as `NoEnglishKeyword`.
- Handler.EventHandler.HandleEvent: an exception raised by the converter, by `struct` or by the engine's `process` is not modelled. Audio is assumed to be whole bytes already in the converter's format, and `Porcupine.Process` always returns. If `process` raised, the detections of the earlier frames of the chunk would already be written, the failing frame would stay at the head of the audio buffer because the buffer is only trimmed after a frame is processed, and the exception would leave `handle_event`.
