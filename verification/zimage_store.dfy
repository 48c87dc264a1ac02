/**
 * The renderer's generation store (`useZImageStore`): the model-list
 * refresh, the start-generation guard and request, and the listeners that
 * fold the main process's messages into `logs`, `isGenerating` and
 * `generatedImagePath`.
 *
 * `startGeneration` registers one stdout, one stderr and one close listener
 * each time it runs, and only the close listener removes them (all of them);
 * `listeners` records, oldest first, the output path each registration
 * captured.
 */
module ZImageStore {
  import opened Wrappers
  import opened Strings
  import ZImage
  import Paths

  const DefaultModel: string := "z-image-turbo"
  const MissingFolderMessage: string := "Please set an output folder in Settings before generating images."

  datatype Store = Store(
    prompt: string,
    negativePrompt: string,
    outputFolder: string,
    selectedModel: string,
    width: int,
    height: int,
    steps: ZImage.Scalar,
    seed: ZImage.Scalar,
    gpuId: ZImage.Scalar,
    availableModels: seq<string>,
    isGenerating: bool,
    logs: string,
    generatedImagePath: string,
    listeners: seq<string>)

  /** The refs' initial values. */
  const Initial: Store := Store(
    "", "", "", DefaultModel, 1024, 1024,
    ZImage.Str("auto"), ZImage.Str("rand"), ZImage.Str("auto"),
    [], false, "", "", [])

  // ---------------------------------------------------------------------------
  // fetchModels

  /**
   * The answer to the models request; `None` when the request fails, which
   * is only logged.
   */
  function FetchModels(st: Store, reply: Option<seq<string>>): (r: Store)
    ensures reply.None? ==> r == st
    ensures reply.Some? ==> r == st.(availableModels := reply.value, selectedModel := r.selectedModel)
    ensures reply.Some? && |reply.value| > 0 ==> r.selectedModel in reply.value
    ensures reply.Some? && (reply.value == [] || st.selectedModel in reply.value) ==>
      r.selectedModel == st.selectedModel
    ensures reply.Some? && |reply.value| > 0 && st.selectedModel !in reply.value ==>
      r.selectedModel == if DefaultModel in reply.value then DefaultModel else reply.value[0]
  {
    match reply
    case None => st
    case Some(models) =>
      var selected :=
        if |models| > 0 && st.selectedModel !in models then
          if DefaultModel in models then DefaultModel else models[0]
        else st.selectedModel;
      st.(availableModels := models, selectedModel := selected)
  }

  /** Receiving the same list again changes nothing. */
  lemma FetchModelsIdempotent(st: Store, models: seq<string>)
    ensures FetchModels(FetchModels(st, Some(models)), Some(models)) == FetchModels(st, Some(models))
  {
  }

  // ---------------------------------------------------------------------------
  // startGeneration

  /** The image path the request names, from the folder and `Date.now()`. */
  function OutputFile(folder: string, now: nat): string {
    folder + "/out-" + NatStr(now) + ".png"
  }

  /** The options object sent with the request. */
  function Request(st: Store, now: nat): ZImage.Options {
    ZImage.Options(
      st.prompt,
      Some(st.negativePrompt),
      Some(OutputFile(st.outputFolder, now)),
      Some(st.width),
      Some(st.height),
      Some(st.steps),
      Some(st.seed),
      Some(st.selectedModel),
      Some(st.gpuId))
  }

  datatype Started = Started(store: Store, success: bool, message: Option<string>, request: Option<ZImage.Options>)

  /**
   * Refuses without an output folder; otherwise clears the previous run,
   * registers a listener trio and sends the request.
   */
  function StartGeneration(st: Store, now: nat): (r: Started)
    ensures r.success <==> st.outputFolder != ""
    ensures !r.success ==> r.store == st && r.request == None && r.message == Some(MissingFolderMessage)
    ensures r.success ==> r.message == None && r.request == Some(Request(st, now))
    ensures r.success ==> r.store.isGenerating && r.store.logs == "" && r.store.generatedImagePath == ""
    ensures r.success ==> r.store.listeners == st.listeners + [OutputFile(st.outputFolder, now)]
    ensures r.success ==> r.store == st.(isGenerating := true, logs := "", generatedImagePath := "",
                                         listeners := st.listeners + [OutputFile(st.outputFolder, now)])
  {
    if st.outputFolder == "" then
      Started(st, false, Some(MissingFolderMessage), None)
    else
      Started(
        st.(isGenerating := true, logs := "", generatedImagePath := "",
            listeners := st.listeners + [OutputFile(st.outputFolder, now)]),
        true, None, Some(Request(st, now)))
  }

  // ---------------------------------------------------------------------------
  // Listeners

  function Repeat(s: string, n: nat): string {
    if n == 0 then "" else s + Repeat(s, n - 1)
  }

  /** A stdout or stderr chunk: every registered listener appends it. */
  function OnChunk(st: Store, data: string): (r: Store)
    ensures r == st.(logs := r.logs)
    ensures |st.listeners| == 1 ==> r.logs == st.logs + data
    ensures |st.listeners| == 0 ==> r == st
  {
    assert Repeat(data, 1) == data + "" == data;
    st.(logs := st.logs + Repeat(data, |st.listeners|))
  }

  lemma {:induction false} RepeatSnoc(s: string, n: nat)
    ensures Repeat(s, n + 1) == Repeat(s, n) + s
  {
    if n > 0 {
      RepeatSnoc(s, n - 1);
      assert s + (Repeat(s, n - 1) + s) == (s + Repeat(s, n - 1)) + s;
    }
  }

  /** One more registration logs one more copy of every chunk. */
  lemma OnChunkOneMore(st: Store, o: string, data: string)
    ensures OnChunk(st.(listeners := st.listeners + [o]), data).logs == OnChunk(st, data).logs + data
  {
    RepeatSnoc(data, |st.listeners|);
  }

  /** `${code}` for the exit code, which is null when a signal ended the process. */
  function CodeText(code: Option<int>): string {
    match code
    case None => "null"
    case Some(n) => IntStr(n)
  }

  function ExitNote(code: Option<int>): string {
    "\nProcess exited with code " + CodeText(code)
  }

  /** The close listeners of `outputs`, in registration order. */
  function CloseEach(st: Store, code: Option<int>, outputs: seq<string>): Store
    decreases |outputs|
  {
    if |outputs| == 0 then st
    else
      var st' := st.(isGenerating := false, listeners := []);
      var st'' := if code == Some(0) then st'.(generatedImagePath := outputs[0])
                  else st'.(logs := st'.logs + ExitNote(code));
      CloseEach(st'', code, outputs[1..])
  }

  /** The close message: every close listener registered before it runs. */
  function OnClose(st: Store, code: Option<int>): Store {
    CloseEach(st, code, st.listeners)
  }

  /** Chunks in arrival order. */
  function Feed(st: Store, chunks: seq<string>): Store
    decreases |chunks|
  {
    if |chunks| == 0 then st else Feed(OnChunk(st, chunks[0]), chunks[1..])
  }

  function Concat(chunks: seq<string>): string
    decreases |chunks|
  {
    if |chunks| == 0 then "" else chunks[0] + Concat(chunks[1..])
  }

  // ---------------------------------------------------------------------------
  // Properties of the listeners

  /** With one registration, the chunks accumulate unchanged and in order. */
  lemma {:induction false} FeedAppends(st: Store, chunks: seq<string>)
    requires |st.listeners| == 1
    ensures Feed(st, chunks) == st.(logs := st.logs + Concat(chunks))
    decreases |chunks|
  {
    if |chunks| > 0 {
      FeedAppends(OnChunk(st, chunks[0]), chunks[1..]);
      assert st.logs + chunks[0] + Concat(chunks[1..]) == st.logs + Concat(chunks);
    }
  }

  /** On code 0 the close listeners end the run with the last registration's output. */
  lemma {:induction false} CloseEachSucceeded(st: Store, outputs: seq<string>)
    requires |outputs| > 0
    ensures CloseEach(st, Some(0), outputs) ==
      st.(isGenerating := false, listeners := [], generatedImagePath := outputs[|outputs| - 1])
    decreases |outputs|
  {
    var st'' := st.(isGenerating := false, listeners := [], generatedImagePath := outputs[0]);
    if |outputs| > 1 {
      CloseEachSucceeded(st'', outputs[1..]);
      assert outputs[1..][|outputs[1..]| - 1] == outputs[|outputs| - 1];
    }
  }

  /** One more copy in front of the repetitions. */
  lemma RepeatMore(prefix: string, s: string, k: nat)
    requires k > 0
    ensures prefix + s + Repeat(s, k - 1) == prefix + Repeat(s, k)
  {
  }

  /** The first close listener on a code other than 0. */
  lemma CloseEachFailedHead(st: Store, code: Option<int>, outputs: seq<string>)
    requires |outputs| > 0 && code != Some(0)
    ensures CloseEach(st, code, outputs) ==
      CloseEach(st.(isGenerating := false, listeners := [], logs := st.logs + ExitNote(code)), code, outputs[1..])
  {
  }

  /** On any other code each close listener appends the exit note. */
  lemma {:induction false} CloseEachFailed(st: Store, code: Option<int>, outputs: seq<string>)
    requires |outputs| > 0 && code != Some(0)
    ensures CloseEach(st, code, outputs) ==
      st.(isGenerating := false, listeners := [], logs := st.logs + Repeat(ExitNote(code), |outputs|))
    decreases |outputs|
  {
    var n := ExitNote(code);
    var k := |outputs|;
    var st'' := st.(isGenerating := false, listeners := [], logs := st.logs + n);
    CloseEachFailedHead(st, code, outputs);
    if k == 1 {
      assert outputs[1..] == [];
      RepeatMore(st.logs, n, 1);
    } else {
      CloseEachFailed(st'', code, outputs[1..]);
      RepeatMore(st.logs, n, k);
    }
  }

  /**
   * The close listeners of `outputs` in turn: the run ends and every
   * registration is dropped; on code 0 the image path is the last
   * registration's output, otherwise each listener appends the exit note.
   */
  lemma CloseEachAll(st: Store, code: Option<int>, outputs: seq<string>)
    requires |outputs| > 0
    ensures CloseEach(st, code, outputs) ==
      if code == Some(0) then
        st.(isGenerating := false, listeners := [], generatedImagePath := outputs[|outputs| - 1])
      else
        st.(isGenerating := false, listeners := [], logs := st.logs + Repeat(ExitNote(code), |outputs|))
  {
    if code == Some(0) {
      CloseEachSucceeded(st, outputs);
    } else {
      CloseEachFailed(st, code, outputs);
    }
  }

  /**
   * Close ends the run, whichever number of registrations hears it: no
   * longer generating, no listener left; on code 0 the image path is the
   * latest registration's output, on any other code (null included) the
   * exit note is appended once per registration.
   */
  lemma CloseAll(st: Store, code: Option<int>)
    requires |st.listeners| > 0
    ensures !OnClose(st, code).isGenerating && OnClose(st, code).listeners == []
    ensures code == Some(0) ==>
      OnClose(st, code) ==
        st.(isGenerating := false, listeners := [], generatedImagePath := st.listeners[|st.listeners| - 1])
    ensures code != Some(0) ==>
      OnClose(st, code) ==
        st.(isGenerating := false, listeners := [], logs := st.logs + Repeat(ExitNote(code), |st.listeners|))
  {
    CloseEachAll(st, code, st.listeners);
  }

  /**
   * Two starts before a close: the close still ends the run; on code 0 the
   * image is the second request's output, otherwise the note appears twice.
   */
  lemma RestartClose(st: Store, now: nat, later: nat, code: Option<int>)
    requires st.listeners == [] && st.outputFolder != ""
    ensures var done := OnClose(StartGeneration(StartGeneration(st, now).store, later).store, code);
      && !done.isGenerating && done.listeners == []
      && done.generatedImagePath == (if code == Some(0) then OutputFile(st.outputFolder, later) else "")
      && done.logs == (if code == Some(0) then "" else ExitNote(code) + ExitNote(code))
  {
    var s := StartGeneration(StartGeneration(st, now).store, later).store;
    assert s.listeners == [OutputFile(st.outputFolder, now), OutputFile(st.outputFolder, later)];
    CloseAll(s, code);
    var n := ExitNote(code);
    assert Repeat(n, 2) == n + Repeat(n, 1) == n + (n + "") == n + n;
  }

  /** A close with nobody listening changes nothing. */
  lemma CloseUnheard(st: Store, code: Option<int>)
    requires st.listeners == []
    ensures OnClose(st, code) == st
  {
  }

  /**
   * A whole run from an idle store: the log is the chunks in order, and the
   * outcome depends on the exit code.
   */
  lemma GenerationRun(st: Store, now: nat, chunks: seq<string>, code: Option<int>)
    requires st.listeners == [] && st.outputFolder != ""
    ensures var done := OnClose(Feed(StartGeneration(st, now).store, chunks), code);
      && !done.isGenerating
      && done.listeners == []
      && done.logs == Concat(chunks) + (if code == Some(0) then "" else ExitNote(code))
      && done.generatedImagePath == (if code == Some(0) then OutputFile(st.outputFolder, now) else "")
  {
    var s1 := StartGeneration(st, now).store;
    assert s1.listeners == [OutputFile(st.outputFolder, now)] && s1.logs == "";
    FeedAppends(s1, chunks);
    var s2 := Feed(s1, chunks);
    assert s2.listeners == s1.listeners && s2.logs == "" + Concat(chunks) == Concat(chunks);
    CloseAll(s2, code);
    assert Repeat(ExitNote(code), 1) == ExitNote(code) + "";
  }

  /**
   * Starting again before the previous run closed leaves two registrations:
   * every chunk is then logged twice.
   */
  lemma RestartDuplicatesChunks(st: Store, now: nat, later: nat, data: string)
    requires st.listeners == [] && st.outputFolder != ""
    ensures var s := StartGeneration(StartGeneration(st, now).store, later).store;
      OnChunk(s, data).logs == data + data
  {
    assert Repeat(data, 1) == data + Repeat(data, 0) == data;
    assert Repeat(data, 2) == data + Repeat(data, 1) == data + data;
  }

  /** The request's output, negative prompt and size on the command line. */
  predicate RequestTextFollows(st: Store, now: nat, exe: string) {
    var a := ZImage.Args(Request(st, now), exe);
    && ZImage.ValueOf(a, "-o") == Some(Paths.Normalize(OutputFile(st.outputFolder, now)))
    && (ZImage.Has(a, "-n") <==> st.negativePrompt != "")
    && ZImage.ValueOf(a, "-s") ==
         (if st.width != 0 && st.height != 0 then Some(ZImage.SizeText(st.width, st.height)) else None)
  }

  /** The request's steps, seed, model and gpu id on the command line. */
  predicate RequestChoiceFollows(st: Store, now: nat, exe: string) {
    var a := ZImage.Args(Request(st, now), exe);
    && (ZImage.Has(a, "-l") <==> st.steps !in {ZImage.Num(0), ZImage.Str(""), ZImage.Str("auto")})
    && (ZImage.Has(a, "-r") <==> st.seed !in {ZImage.Num(0), ZImage.Str(""), ZImage.Str("rand")})
    && ZImage.ValueOf(a, "-m") ==
         (if st.selectedModel != "" then Some(ZImage.ModelPath(exe, st.selectedModel)) else None)
    && ZImage.ValueOf(a, "-g") == Some(ZImage.Text(st.gpuId))
  }

  lemma RequestTextArgs(st: Store, now: nat, exe: string)
    ensures RequestTextFollows(st, now, exe)
  {
    ZImage.ArgsTextValues(Request(st, now), exe);
  }

  lemma RequestChoiceArgs(st: Store, now: nat, exe: string)
    ensures RequestChoiceFollows(st, now, exe)
  {
    var o := Request(st, now);
    ZImage.ArgsNumberValues(o, exe);
    ZImage.ArgsModelGpuValues(o, exe);
    ZImage.ArgAt(o, exe, 6);
  }

  /** What the request puts on the executable's command line. */
  lemma RequestArgs(st: Store, now: nat, exe: string)
    ensures RequestTextFollows(st, now, exe) && RequestChoiceFollows(st, now, exe)
  {
    RequestTextArgs(st, now, exe);
    RequestChoiceArgs(st, now, exe);
  }

  /**
   * From the initial settings (folder chosen): no negative prompt, no steps
   * and no seed, size 1024x1024, the default model, and `-g auto`.
   */
  lemma InitialRequestArgs(folder: string, now: nat, exe: string)
    requires folder != ""
    ensures var a := ZImage.Args(Request(Initial.(outputFolder := folder), now), exe);
      && !ZImage.Has(a, "-n") && !ZImage.Has(a, "-l") && !ZImage.Has(a, "-r")
      && ZImage.ValueOf(a, "-s") == Some("1024,1024")
      && ZImage.ValueOf(a, "-m") == Some(ZImage.ModelPath(exe, DefaultModel))
      && ZImage.ValueOf(a, "-g") == Some("auto")
  {
    RequestArgs(Initial.(outputFolder := folder), now, exe);
    DefaultSizeText();
  }

  lemma DefaultSizeText()
    ensures ZImage.SizeText(1024, 1024) == "1024,1024"
  {
    assert NatStr(1024) == NatStr(102) + [DigitChar(4)];
    assert NatStr(102) == NatStr(10) + [DigitChar(2)];
    assert NatStr(10) == NatStr(1) + [DigitChar(0)];
    assert IntStr(1024) == "1024";
    assert ZImage.SizeText(1024, 1024) == "1024" + "," + "1024" == "1024,1024";
  }
}
