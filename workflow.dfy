/** The task `mine_inference_amber` end to end: clamp the tuning parameters,
    write and check the request file, launch the engine and watch it, then
    split its output directory and choose where the results are uploaded. */
module Workflow {
  import opened Outcomes
  import opened PyText
  import opened Classify
  import opened Parameters
  import opened Normalize
  import opened Engine
  import opened Layout

  /** The task's parameters. A FASTA file is given by its content, an output
      directory by its remote path, a template directory by its local path. */
  datatype Inputs = Inputs(
    fastaFile: Option<string>,
    aaSequence: Option<string>,
    runName: string,
    nrofModels: int,
    outputDir: Option<string>,
    nrofRecycles: int,
    templateDir: Option<string>)

  /** What the task meets once it launches the engine: the run itself, and the
      paths the engine leaves in its output directory, relative to it. */
  datatype World = World(run: EngineRun, preds: set<string>)

  /** The directory the task returns: what it holds under `pdb results` and
      under `other`, and the remote path it is uploaded to. */
  datatype Artifacts = Artifacts(pdbResults: set<string>, other: set<string>, remotePath: string)

  /** Everything the task makes visible: the warnings shown, the request file
      written, the command line launched, the engine lines echoed, and how the
      task ends. */
  datatype Report = Report(
    warnings: seq<Warning>,
    request: Option<string>,
    commandLine: Option<string>,
    echoed: seq<string>,
    result: Result<Artifacts, Failure>)

  /** The task, step by step, as a function of its inputs and of what the
      engine does. Its warnings are those of the clamping; nothing is launched
      without a request file, and nothing is echoed without a launch. */
  function Pipeline(inputs: Inputs, world: World): (r: Report)
    ensures r.warnings == ClampWarnings(inputs.nrofModels, inputs.nrofRecycles)
    ensures r.request.None? ==> r.commandLine.None?
    ensures r.commandLine.None? ==> r.echoed == []
  {
    var models := Clamp(inputs.nrofModels, MinModels, MaxModels);
    var recycles := Clamp(inputs.nrofRecycles, MinRecycles, MaxRecycles);
    var warnings := ClampWarnings(inputs.nrofModels, inputs.nrofRecycles);
    match Request(inputs.fastaFile, inputs.aaSequence)
    case Failure(f) => Report(warnings, None, None, [], Failure(f))
    case Success(request) =>
      match CheckRequest(request)
      case Failure(f) => Report(warnings, Some(request), None, [], Failure(f))
      case Success(_) => Launch(inputs, world, models, recycles, warnings, request)
  }

  /** The task from the launch of the engine on, once the request is valid:
      the command line is always there, and the task fails, if at all, for a
      reason that is not its input. */
  function Launch(inputs: Inputs, world: World, models: int, recycles: int,
                  warnings: seq<Warning>, request: string): (r: Report)
    ensures r.warnings == warnings && r.request == Some(request)
    ensures r.commandLine == Some(CommandLine(Command(models, recycles, inputs.templateDir)))
    ensures r.result.Failure? ==> !IsInputFailure(r.result.error)
    ensures r.echoed == Echoed(world.run.stream)
    ensures r.result.Failure? ==>
      Some(r.result.error) == RunOutcome(world.run) || r.result.error == EmptyOutputDir
  {
    var line := CommandLine(Command(models, recycles, inputs.templateDir));
    var echoed := Echoed(world.run.stream);
    match RunOutcome(world.run)
    case Some(f) => Report(warnings, Some(request), Some(line), echoed, Failure(f))
    case None =>
      match OutputLocation(inputs.outputDir, inputs.runName)
      case Failure(f) => Report(warnings, Some(request), Some(line), echoed, Failure(f))
      case Success(location) =>
        var artifacts := Artifacts(PdbResults(world.preds), OtherFiles(world.preds), location);
        Report(warnings, Some(request), Some(line), echoed, Success(artifacts))
  }

  /** `mine_inference_amber`. */
  method MineInferenceAmber(inputs: Inputs, world: World) returns (report: Report)
    ensures report == Pipeline(inputs, world)
  {
    var models, recycles, warnings := ClampParameters(inputs.nrofModels, inputs.nrofRecycles);
    var request := WriteRequest(inputs.fastaFile, inputs.aaSequence);
    if request.Failure? {
      return Report(warnings, None, None, [], Failure(request.error));
    }
    var checked := CheckRequest(request.value);
    if checked.Failure? {
      return Report(warnings, Some(request.value), None, [], Failure(checked.error));
    }
    report := LaunchEngine(inputs, world, models, recycles, warnings, request.value);
  }

  /** Build the command, launch and watch the engine, then move its output
      and choose the upload location. */
  method LaunchEngine(inputs: Inputs, world: World, models: int, recycles: int,
                      warnings: seq<Warning>, request: string) returns (report: Report)
    ensures report == Launch(inputs, world, models, recycles, warnings, request)
  {
    var command := BaseCommand(models, recycles);
    if inputs.templateDir.Some? {
      command := command + ["--templates", "--custom-template-path", inputs.templateDir.value];
    }
    assert command == Command(models, recycles, inputs.templateDir);
    var line := CommandLine(command);
    var echoed, failure := Monitor(world.run);
    if failure.Some? {
      return Report(warnings, Some(request), Some(line), echoed, Failure(failure.value));
    }
    var pdbResults, other := Partition(world.preds);
    var location := OutputLocation(inputs.outputDir, inputs.runName);
    if location.Failure? {
      return Report(warnings, Some(request), Some(line), echoed, Failure(location.error));
    }
    report := Report(warnings, Some(request), Some(line), echoed,
                     Success(Artifacts(pdbResults, other, location.value)));
  }

  // ---------------------------------------------------------------------------
  // Properties of the task

  /** The engine is launched exactly when the input is valid; an invalid input
      launches nothing and echoes nothing. */
  lemma LaunchIffValidInput(inputs: Inputs, world: World)
    ensures Pipeline(inputs, world).commandLine.Some? <==>
      !(Pipeline(inputs, world).result.Failure? && IsInputFailure(Pipeline(inputs, world).result.error))
    ensures Pipeline(inputs, world).commandLine.None? ==> Pipeline(inputs, world).echoed == []
  {
    var r := Request(inputs.fastaFile, inputs.aaSequence);
    if r.Success? && CheckRequest(r.value).Success? {
      var models := Clamp(inputs.nrofModels, MinModels, MaxModels);
      var recycles := Clamp(inputs.nrofRecycles, MinRecycles, MaxRecycles);
      var warnings := ClampWarnings(inputs.nrofModels, inputs.nrofRecycles);
      assert Pipeline(inputs, world) == Launch(inputs, world, models, recycles, warnings, r.value);
    } else if r.Success? {
      assert Pipeline(inputs, world) == Report(ClampWarnings(inputs.nrofModels, inputs.nrofRecycles),
        Some(r.value), None, [], Failure(CheckRequest(r.value).error));
    } else {
      assert Pipeline(inputs, world) == Report(ClampWarnings(inputs.nrofModels, inputs.nrofRecycles),
        None, None, [], Failure(r.error));
    }
  }

  /** A text block with a non-blank line that holds a space and is not a header
      stops the task before any request is written and before the engine is
      launched. */
  lemma SpacesStopEverything(inputs: Inputs, world: World, l: string)
    requires inputs.fastaFile.None? && inputs.aaSequence.Some?
    requires l in Split(inputs.aaSequence.value, '\n') && !IsBlank(l) && SpaceRejected(l)
    ensures Pipeline(inputs, world).request.None?
    ensures Pipeline(inputs, world).commandLine.None? && Pipeline(inputs, world).echoed == []
    ensures Pipeline(inputs, world).result == Failure(SpacesInSequence)
  {
    TextSpacesRefused(inputs.aaSequence.value);
  }

  /** A run ends only with the failures of the engine. */
  lemma AfterStreamFailures(run: EngineRun)
    ensures RunOutcome(run).Some? ==> RunOutcome(run).value.EngineReported? || RunOutcome(run).value.EngineExitedNonZero?
  {
  }

  /** The launched command line gives the engine in-range counts: the clamped
      counts, which are the requested ones when those were in range. */
  lemma LaunchedCountsInRange(inputs: Inputs, world: World)
    requires Pipeline(inputs, world).commandLine.Some?
    ensures exists models: int, recycles: int ::
      && Pipeline(inputs, world).commandLine.value == CommandLine(Command(models, recycles, inputs.templateDir))
      && ParseInt(FlagValue(Command(models, recycles, inputs.templateDir), "--num-models").value) == Some(models)
      && ParseInt(FlagValue(Command(models, recycles, inputs.templateDir), "--num-recycle").value) == Some(recycles)
      && MinModels <= models <= MaxModels && MinRecycles <= recycles <= MaxRecycles
      && (MinModels <= inputs.nrofModels <= MaxModels ==> models == inputs.nrofModels)
      && (MinRecycles <= inputs.nrofRecycles <= MaxRecycles ==> recycles == inputs.nrofRecycles)
  {
    var models := Clamp(inputs.nrofModels, MinModels, MaxModels);
    var recycles := Clamp(inputs.nrofRecycles, MinRecycles, MaxRecycles);
    var request := Request(inputs.fastaFile, inputs.aaSequence);
    assert request.Success? && CheckRequest(request.value).Success?;
    var warnings := ClampWarnings(inputs.nrofModels, inputs.nrofRecycles);
    assert Pipeline(inputs, world) == Launch(inputs, world, models, recycles, warnings, request.value);
    var command := Command(models, recycles, inputs.templateDir);
    assert Pipeline(inputs, world).commandLine.value == CommandLine(command);
    CommandCounts(models, recycles, inputs.templateDir);
  }

  /** The task succeeds exactly when the request is valid, no line the loop
      reaches, nor the remaining output, nor the standard error holds a
      signature, the engine exits with status zero, and the output directory,
      when given, is not empty. */
  lemma SuccessIff(inputs: Inputs, world: World)
    ensures Pipeline(inputs, world).result.Success? <==>
      && Request(inputs.fastaFile, inputs.aaSequence).Success?
      && CheckRequest(Request(inputs.fastaFile, inputs.aaSequence).value).Success?
      && (forall j :: 0 <= j < |world.run.stream| && j <= StopAt(Steps(world.run.stream)) ==>
            SignatureFree(world.run.stream[j].line))
      && SignatureFree(world.run.rawOut) && SignatureFree(world.run.rawErr)
      && world.run.exitCode == 0
      && (inputs.outputDir.Some? ==> inputs.outputDir.value != [])
  {
    RunSucceedsIff(world.run);
  }

  /** On success, every path the engine left is returned under exactly one of
      `pdb results` and `other`, and the upload location is the run's name
      under the formatted chosen directory, or under the default root. */
  lemma SuccessLayout(inputs: Inputs, world: World)
    requires Pipeline(inputs, world).result.Success?
    ensures Pipeline(inputs, world).result.value.pdbResults + Pipeline(inputs, world).result.value.other == world.preds
    ensures Pipeline(inputs, world).result.value.pdbResults !! Pipeline(inputs, world).result.value.other
    ensures forall p :: p in Pipeline(inputs, world).result.value.pdbResults ==> IsPdbName(TopEntry(p))
    ensures EndsWith(Pipeline(inputs, world).result.value.remotePath, "/" + inputs.runName)
    ensures Pipeline(inputs, world).result.value.remotePath ==
      if inputs.outputDir.None? then DefaultRoot + inputs.runName
      else FmtDir(inputs.outputDir.value).value + "/" + inputs.runName
  {
    PartitionExact(world.preds);
  }
}
