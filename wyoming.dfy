/**
 * The Wyoming protocol events the handler reads and writes, and the
 * service description (`Info`) built at start-up.
 */
module Wyoming {
  import opened Wrappers
  import opened Dicts
  import opened Pcm
  import opened Porcupine

  /** Raw audio with its format and its timestamp (if any). */
  datatype AudioChunk = AudioChunk(rate: int, width: int, channels: int, audio: seq<byte>, timestamp: Option<int>)

  /** The events a client sends. */
  datatype Event =
    | Describe
    | Detect(names: Option<seq<string>>)
    | AudioStart
    | AudioChunkEvent(chunk: AudioChunk)
    | AudioStop
    | Unexpected(kind: string)

  datatype Attribution = Attribution(name: string, url: string)

  datatype WakeModel = WakeModel(
    name: string, description: string, phrase: string, attribution: Attribution,
    installed: bool, languages: seq<string>, version: string)

  datatype WakeProgram = WakeProgram(
    name: string, description: string, attribution: Attribution,
    installed: bool, version: string, models: seq<WakeModel>)

  datatype Info = Info(wake: seq<WakeProgram>)

  /** The events the handler writes. */
  datatype OutEvent =
    | InfoEvent(info: Info)
    | Detection(name: string, timestamp: Option<int>)
    | NotDetected

  const Picovoice := Attribution("Picovoice", "https://github.com/Picovoice/porcupine")

  /** The advertised model of one keyword. */
  function ModelOf(kw: Keyword): WakeModel
  {
    WakeModel(kw.name, kw.name + " (" + kw.language + ")", kw.name, Picovoice, true, [kw.language], "1.9.0")
  }

  /** One advertised model per keyword, in dictionary order. */
  function WakeModels(keywords: Dict<Keyword>): (models: seq<WakeModel>)
    ensures |models| == |keywords|
    ensures forall i :: 0 <= i < |keywords| ==> models[i] == ModelOf(keywords[i].1)
  {
    seq(|keywords|, i requires 0 <= i < |keywords| => ModelOf(keywords[i].1))
  }

  /** The description `main` builds, for service version `version`. */
  function BuildInfo(version: string, keywords: Dict<Keyword>): (info: Info)
    ensures |info.wake| == 1
    ensures info.wake[0].name == "porcupine1" && info.wake[0].installed
    ensures info.wake[0].version == version && info.wake[0].attribution == Picovoice
    ensures |info.wake[0].models| == |keywords|
  {
    Info([WakeProgram(
      "porcupine1", "On-device wake word detection powered by deep learning",
      Picovoice, true, version, WakeModels(keywords))])
  }

  /**
   * The description advertises exactly one program, and under it one model
   * per keyword, in order, carrying the keyword's name as name and phrase and
   * its language as the only language; every model is installed.
   */
  lemma InfoAdvertisesKeywords(version: string, keywords: Dict<Keyword>)
    ensures |BuildInfo(version, keywords).wake| == 1
    ensures |BuildInfo(version, keywords).wake[0].models| == |keywords|
    ensures forall i :: 0 <= i < |keywords| ==>
              var m := BuildInfo(version, keywords).wake[0].models[i];
              m.name == keywords[i].1.name && m.phrase == m.name
              && m.description == keywords[i].1.name + " (" + keywords[i].1.language + ")"
              && m.languages == [keywords[i].1.language] && m.installed
              && m.version == "1.9.0" && m.attribution == Picovoice
  {
  }
}
