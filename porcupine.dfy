/**
 * Keywords, the native Porcupine engine seen from outside, and the detector
 * loading done by `State.get_porcupine`.
 */
module Porcupine {
  import opened Wrappers
  import opened Dicts
  import opened Pcm
  import opened Framing

  /** One keyword model file (`.ppn`) found at start-up. */
  datatype Keyword = Keyword(language: string, name: string, modelPath: string)

  /**
   * An engine made by `pvporcupine.create`. The engine is a native object
   * with its own memory of the audio it was given, so what `process` returns
   * is modelled as a function of every frame fed so far: `respond(fed)` is
   * the keyword index (negative for none) returned for the last frame of
   * `fed`. `frameLength` is the number of samples per frame it takes.
   */
  datatype Engine = Engine(frameLength: Pos, respond: seq<Frame> -> int)

  /** A loaded engine with the sensitivity it was requested for, and the frames fed to it. */
  datatype Detector = Detector(engine: Engine, sensitivity: real, fed: seq<Frame>)

  /** `porcupine.process(pcm)`: feed one frame, get the keyword index. */
  function Process(d: Detector, pcm: Frame): (r: (Detector, int))
    requires |pcm| == d.engine.frameLength
    ensures r.0.engine == d.engine && r.0.sensitivity == d.sensitivity
    ensures r.0.fed == d.fed + [pcm] && |r.0.fed| == |d.fed| + 1
    ensures r.1 == d.engine.respond(r.0.fed)
  {
    var d' := d.(fed := d.fed + [pcm]);
    (d', d.engine.respond(d'.fed))
  }

  /** Why loading a detector raises. */
  datatype LoadError =
    | NoEnglishKeyword  // `keywords_paths[0]` raises IndexError
    | NoEnglishLibrary  // `pv_lib_paths["en"]` raises KeyError
    | EngineInitFailed  // `pvporcupine.create` raises

  /**
   * The process-wide state: language -> engine library path, keyword name ->
   * keyword, both built once at start-up, and the native constructor
   * `pvporcupine.create(model_path, keyword_paths)`, which either yields an
   * engine or raises (None).
   */
  datatype State = State(
    libPaths: Dict<string>,
    keywords: Dict<Keyword>,
    create: (string, seq<string>) -> Option<Engine>)

  /** The model paths of the English keywords, in dictionary order. */
  function EnglishModelPaths(keywords: Dict<Keyword>): (paths: seq<string>)
    ensures |paths| <= |keywords|
  {
    if keywords == [] then []
    else
      var init := keywords[..|keywords| - 1];
      var last := keywords[|keywords| - 1].1;
      EnglishModelPaths(init) + (if last.language == "en" then [last.modelPath] else [])
  }

  /**
   * The selected paths are exactly those of the English keywords, in order:
   * path `j` belongs to keyword `picked[j]`, the picked positions increase, and
   * every English keyword is picked.
   */
  lemma {:induction false} EnglishSelection(keywords: Dict<Keyword>) returns (picked: seq<nat>)
    ensures |picked| == |EnglishModelPaths(keywords)|
    ensures forall j :: 0 <= j < |picked| ==>
              picked[j] < |keywords| && keywords[picked[j]].1.language == "en"
              && EnglishModelPaths(keywords)[j] == keywords[picked[j]].1.modelPath
    ensures forall j, k :: 0 <= j < k < |picked| ==> picked[j] < picked[k]
    ensures forall i :: 0 <= i < |keywords| && keywords[i].1.language == "en" ==> i in picked
  {
    if keywords == [] {
      picked := [];
    } else {
      var n := |keywords| - 1;
      var init := keywords[..n];
      picked := EnglishSelection(init);
      assert forall i :: 0 <= i < n ==> init[i] == keywords[i];
      var prev := EnglishModelPaths(init);
      var paths := EnglishModelPaths(keywords);
      assert forall j :: 0 <= j < |prev| ==> paths[j] == prev[j];
      if keywords[n].1.language == "en" {
        assert paths[|prev|] == keywords[n].1.modelPath;
        picked := picked + [n];
      }
    }
  }

  /** What `get_porcupine(sensitivity)` returns or raises. */
  function DetectorFor(state: State, sensitivity: real): (r: Result<Detector, LoadError>)
    ensures r.Success? ==> r.value.fed == [] && r.value.sensitivity == sensitivity
    ensures r.Success? ==>
              && Get(state.libPaths, "en").Some?
              && state.create(Get(state.libPaths, "en").value, EnglishModelPaths(state.keywords)).Some?
              && r.value.engine == state.create(Get(state.libPaths, "en").value, EnglishModelPaths(state.keywords)).value
  {
    var paths := EnglishModelPaths(state.keywords);
    if paths == [] then Failure(NoEnglishKeyword)
    else match Get(state.libPaths, "en")
      case None => Failure(NoEnglishLibrary)
      case Some(lib) =>
        match state.create(lib, paths)
        case None => Failure(EngineInitFailed)
        case Some(engine) => Success(Detector(engine, sensitivity, []))
  }

  /**
   * Loading fails for want of an English keyword exactly when there is none,
   * for want of the English library exactly when there is an English keyword
   * but no library, and otherwise succeeds exactly when the engine can be
   * made from the English library and the English keyword paths.
   */
  lemma DetectorForOutcome(state: State, sensitivity: real)
    ensures DetectorFor(state, sensitivity) == Failure(NoEnglishKeyword)
            <==> forall i :: 0 <= i < |state.keywords| ==> state.keywords[i].1.language != "en"
    ensures DetectorFor(state, sensitivity) == Failure(NoEnglishLibrary)
            <==> EnglishModelPaths(state.keywords) != [] && Get(state.libPaths, "en").None?
    ensures DetectorFor(state, sensitivity).Success?
            <==> EnglishModelPaths(state.keywords) != [] && Get(state.libPaths, "en").Some?
                 && state.create(Get(state.libPaths, "en").value, EnglishModelPaths(state.keywords)).Some?
  {
    var picked := EnglishSelection(state.keywords);
    if picked == [] {
      assert forall i :: 0 <= i < |state.keywords| ==> state.keywords[i].1.language != "en";
    } else {
      assert state.keywords[picked[0]].1.language == "en";
    }
  }

  /** `State.get_porcupine`: collect the English keyword paths, then create the engine. */
  method GetPorcupine(state: State, sensitivity: real) returns (r: Result<Detector, LoadError>)
    ensures r == DetectorFor(state, sensitivity)
  {
    var keywordsPaths: seq<string> := [];
    var i := 0;
    while i < |state.keywords|
      invariant 0 <= i <= |state.keywords|
      invariant keywordsPaths == EnglishModelPaths(state.keywords[..i])
    {
      assert state.keywords[..i + 1][..i] == state.keywords[..i];
      var keyword := state.keywords[i].1;
      if keyword.language == "en" {
        keywordsPaths := keywordsPaths + [keyword.modelPath];
      }
      i := i + 1;
    }
    assert state.keywords[..i] == state.keywords;
    if |keywordsPaths| == 0 {
      return Failure(NoEnglishKeyword);
    }
    var lib := Get(state.libPaths, "en");
    if lib.None? {
      return Failure(NoEnglishLibrary);
    }
    var engine := state.create(lib.value, keywordsPaths);
    if engine.None? {
      return Failure(EngineInitFailed);
    }
    r := Success(Detector(engine.value, sensitivity, []));
  }
}
