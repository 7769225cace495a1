/** Launching the structure-prediction engine and watching it run: the command
    line the task hands to the shell, the loop that reads the engine's standard
    output line by line, and the checks made once the stream has ended. */
module Engine {
  import opened Outcomes
  import opened PyText
  import opened Classify

  const Program := "colabfold_batch"
  const InputPath := "/sequence.fasta"
  const PredsDir := "/root/preds"
  const DataDir := "/root/data"
  /** The search server's address, written in three pieces that together spell
      "http://ec2-52-38-163-139.us-west-2.compute.amazonaws.com:80/api". */
  const HostUrl := HostScheme + HostRegion + HostDomain
  const HostScheme := "http://ec2-52-38-163-139"
  const HostRegion := ".us-west-2.compute"
  const HostDomain := ".amazonaws.com:80/api"

  // ---------------------------------------------------------------------------
  // The command

  /** The argument that follows the first occurrence of `flag` in `args`. */
  function FlagValue(args: seq<string>, flag: string): Option<string>
  {
    if |args| < 2 then None
    else if args[0] == flag then Some(args[1])
    else FlagValue(args[1..], flag)
  }

  /** The value of a flag is the argument after its first occurrence. */
  lemma {:induction false} FlagValueAt(args: seq<string>, flag: string, i: nat)
    requires i + 1 < |args| && args[i] == flag
    requires forall j :: 0 <= j < i ==> args[j] != flag
    ensures FlagValue(args, flag) == Some(args[i + 1])
  {
    if i > 0 {
      FlagValueAt(args[1..], flag, i - 1);
    }
  }

  /** A flag that does not occur has no value. */
  lemma {:induction false} FlagValueAbsent(args: seq<string>, flag: string)
    requires forall j :: 0 <= j < |args| ==> args[j] != flag
    ensures FlagValue(args, flag) == None
  {
    if |args| >= 2 {
      FlagValueAbsent(args[1..], flag);
    }
  }

  /** No flag is the text of an integer. */
  lemma NumberIsNoFlag(i: int, flag: string)
    requires |flag| >= 2 && flag[0] == '-' && flag[1] == '-'
    ensures IntToString(i) != flag
  {
  }

  /** The words every invocation of the engine has: the request file, the
      output directory, relaxation on the GPU, the two tuning counts, the
      database directory and the search server. */
  function BaseCommand(models: int, recycles: int): seq<string>
  {
    [Program, InputPath, PredsDir, "--amber", "--use-gpu-relax",
     "--num-models", IntToString(models), "--num-recycle", IntToString(recycles),
     "--data", DataDir, "--host-url", HostUrl]
  }

  /** The words added when a template directory is given. */
  function TemplateOptions(templateDir: Option<string>): seq<string>
  {
    match templateDir
    case None => []
    case Some(dir) => ["--templates", "--custom-template-path", dir]
  }

  /** The word list of the engine's invocation. */
  function Command(models: int, recycles: int, templateDir: Option<string>): (r: seq<string>)
    ensures |r| == if templateDir.Some? then 16 else 13
    ensures r[0] == Program && r[1] == InputPath && r[2] == PredsDir
    ensures "--amber" in r && "--use-gpu-relax" in r
    ensures FlagValue(r, "--num-models") == Some(IntToString(models))
    ensures FlagValue(r, "--num-recycle") == Some(IntToString(recycles))
    ensures FlagValue(r, "--data") == Some(DataDir)
    ensures FlagValue(r, "--host-url") == Some(HostUrl)
    ensures "--templates" in r <==> templateDir.Some?
    ensures FlagValue(r, "--custom-template-path") == templateDir
  {
    var r := BaseCommand(models, recycles) + TemplateOptions(templateDir);
    assert r[3] == "--amber" && r[4] == "--use-gpu-relax";
    CountFlags(models, recycles, TemplateOptions(templateDir));
    ServiceFlags(models, recycles, TemplateOptions(templateDir));
    TemplateFlags(models, recycles, templateDir);
    r
  }

  /** The counts follow their flags, whatever words come after the base ones. */
  lemma CountFlags(models: int, recycles: int, extra: seq<string>)
    ensures FlagValue(BaseCommand(models, recycles) + extra, "--num-models") == Some(IntToString(models))
    ensures FlagValue(BaseCommand(models, recycles) + extra, "--num-recycle") == Some(IntToString(recycles))
  {
    var r := BaseCommand(models, recycles) + extra;
    assert r[..13] == BaseCommand(models, recycles);
    NumberIsNoFlag(models, "--num-recycle");
    FlagValueAt(r, "--num-models", 5);
    FlagValueAt(r, "--num-recycle", 7);
  }

  /** The database directory and the search server follow their flags. */
  lemma ServiceFlags(models: int, recycles: int, extra: seq<string>)
    ensures FlagValue(BaseCommand(models, recycles) + extra, "--data") == Some(DataDir)
    ensures FlagValue(BaseCommand(models, recycles) + extra, "--host-url") == Some(HostUrl)
  {
    var r := BaseCommand(models, recycles) + extra;
    assert r[..13] == BaseCommand(models, recycles);
    NumberIsNoFlag(models, "--data");
    NumberIsNoFlag(recycles, "--data");
    NumberIsNoFlag(models, "--host-url");
    NumberIsNoFlag(recycles, "--host-url");
    FlagValueAt(r, "--data", 9);
    FlagValueAt(r, "--host-url", 11);
  }

  /** The template options are present exactly when a template directory is
      given, and then name that directory. */
  lemma TemplateFlags(models: int, recycles: int, templateDir: Option<string>)
    ensures "--templates" in BaseCommand(models, recycles) + TemplateOptions(templateDir) <==> templateDir.Some?
    ensures FlagValue(BaseCommand(models, recycles) + TemplateOptions(templateDir), "--custom-template-path") == templateDir
  {
    var base := BaseCommand(models, recycles);
    var r := base + TemplateOptions(templateDir);
    NumberIsNoFlag(models, "--templates");
    NumberIsNoFlag(recycles, "--templates");
    NumberIsNoFlag(models, "--custom-template-path");
    NumberIsNoFlag(recycles, "--custom-template-path");
    assert "--templates" !in base;
    assert forall j :: 0 <= j < |base| ==> base[j] != "--custom-template-path";
    match templateDir
    case None =>
      assert r == base;
      FlagValueAbsent(r, "--custom-template-path");
    case Some(dir) =>
      assert r[..13] == base && r[13] == "--templates" && r[14] == "--custom-template-path" && r[15] == dir;
      FlagValueAt(r, "--custom-template-path", 14);
  }

  /** The single string handed to the shell: the words joined by spaces. When
      no word holds a space, splitting it at spaces gives the words back. */
  function CommandLine(cmd: seq<string>): (line: string)
    ensures |cmd| >= 1 && Unbroken(cmd) ==> Split(line, ' ') == cmd
  {
    var line := Join(cmd, " ");
    if |cmd| >= 1 && Unbroken(cmd) then SplitJoin(cmd, ' '); line else line
  }

  /** The counts passed on the command line read back as the counts. */
  lemma CommandCounts(models: int, recycles: int, templateDir: Option<string>)
    ensures ParseInt(FlagValue(Command(models, recycles, templateDir), "--num-models").value) == Some(models)
    ensures ParseInt(FlagValue(Command(models, recycles, templateDir), "--num-recycle").value) == Some(recycles)
  {
    IntRoundTrip(models);
    IntRoundTrip(recycles);
  }

  /** The search server's address holds no space. */
  lemma HostUrlUnbroken()
    ensures ' ' !in HostUrl
  {
    assert ' ' !in HostScheme && ' ' !in HostRegion && ' ' !in HostDomain;
  }

  /** No word of a list holds a space. */
  predicate Unbroken(words: seq<string>)
  {
    forall i :: 0 <= i < |words| ==> ' ' !in words[i]
  }

  /** The base words hold no space. */
  lemma BaseUnbroken(models: int, recycles: int)
    ensures Unbroken(BaseCommand(models, recycles))
  {
    HostUrlUnbroken();
    var base := BaseCommand(models, recycles);
    assert ' ' !in Program && ' ' !in InputPath && ' ' !in PredsDir && ' ' !in DataDir;
    assert ' ' !in "--amber" && ' ' !in "--use-gpu-relax" && ' ' !in "--num-models";
    assert ' ' !in "--num-recycle" && ' ' !in "--data" && ' ' !in "--host-url";
  }

  /** The template words hold no space when the directory holds none. */
  lemma TemplateUnbroken(templateDir: Option<string>)
    requires templateDir.Some? ==> ' ' !in templateDir.value
    ensures Unbroken(TemplateOptions(templateDir))
  {
    assert ' ' !in "--templates" && ' ' !in "--custom-template-path";
  }

  /** When the template directory holds no space, the shell's splitting of the
      command line at spaces gives back exactly the word list. */
  lemma ShellWords(models: int, recycles: int, templateDir: Option<string>)
    requires templateDir.Some? ==> ' ' !in templateDir.value
    ensures Split(CommandLine(Command(models, recycles, templateDir)), ' ') == Command(models, recycles, templateDir)
  {
    var base, extra := BaseCommand(models, recycles), TemplateOptions(templateDir);
    var cmd := Command(models, recycles, templateDir);
    assert cmd == base + extra;
    BaseUnbroken(models, recycles);
    TemplateUnbroken(templateDir);
    assert Unbroken(cmd) by {
      forall i | 0 <= i < |cmd| ensures ' ' !in cmd[i] {
        if i < |base| {
          assert cmd[i] == base[i];
        } else {
          assert cmd[i] == extra[i - |base|];
        }
      }
    }
  }

  // ---------------------------------------------------------------------------
  // The stream loop

  /** One `readline()` on the engine's standard output: the decoded line, and
      whether `poll()` would report the engine as finished at that moment. The
      loop only asks `poll()` when the stripped line is empty. The end of a
      stream stands for the final read at end of file once the engine has
      finished. */
  datatype ReadEvent = ReadEvent(line: string, exited: bool)

  /** What a run of the engine gives the task: the reads of its standard output,
      the remaining standard output and the standard error that
      `communicate()` returns, and the exit status. */
  datatype EngineRun = EngineRun(stream: seq<ReadEvent>, rawOut: string, rawErr: string, exitCode: int)

  /** What the loop makes of one read, after stripping it: an empty line
      (the loop asks whether the engine has finished), a progress line to
      echo, or a line holding an error signature. */
  datatype Step = Quiet(exited: bool) | Progress(text: string) | Fatal(kind: EngineError, text: string)

  /** Strip the line, then classify it with `handle_error` when it is not
      empty: a progress line when `handle_error` returns, a fatal one, of the
      kind it raises, otherwise. */
  function ClassifyRead(e: ReadEvent): (s: Step)
    ensures s.Quiet? <==> Strip(e.line) == []
    ensures s.Quiet? ==> s.exited == e.exited
    ensures !s.Quiet? ==> s.text == Strip(e.line)
    ensures s.Progress? <==> Strip(e.line) != [] && HandleError(Strip(e.line)).None?
    ensures s.Fatal? ==> HandleError(Strip(e.line)) == Some(s.kind)
  {
    var text := Strip(e.line);
    if text == [] then Quiet(e.exited)
    else match HandleError(text)
      case None => Progress(text)
      case Some(kind) => Fatal(kind, text)
  }

  /** `f` applied to every read of a stream, in order. */
  function MapReads(stream: seq<ReadEvent>, f: ReadEvent -> Step): (r: seq<Step>)
    ensures |r| == |stream|
  {
    if stream == [] then []
    else MapReads(stream[..|stream| - 1], f) + [f(stream[|stream| - 1])]
  }

  lemma {:induction false} MapReadsAt(stream: seq<ReadEvent>, f: ReadEvent -> Step, j: nat)
    requires j < |stream|
    ensures MapReads(stream, f)[j] == f(stream[j])
    decreases |stream|
  {
    var n := |stream| - 1;
    if j < n {
      MapReadsAt(stream[..n], f, j);
    }
  }

  lemma {:induction false} MapReadsPrefix(stream: seq<ReadEvent>, f: ReadEvent -> Step, i: nat)
    requires i <= |stream|
    ensures MapReads(stream, f)[..i] == MapReads(stream[..i], f)
    decreases |stream|
  {
    var n := |stream| - 1;
    if i < |stream| {
      MapReadsPrefix(stream[..n], f, i);
      assert stream[..n][..i] == stream[..i];
    } else {
      assert stream[..i] == stream;
    }
  }

  lemma {:induction false} MapReadsAppend(a: seq<ReadEvent>, b: seq<ReadEvent>, f: ReadEvent -> Step)
    ensures MapReads(a + b, f) == MapReads(a, f) + MapReads(b, f)
    decreases |b|
  {
    if b == [] {
      assert a + b == a;
    } else {
      assert (a + b)[..|a + b| - 1] == a + b[..|b| - 1];
      MapReadsAppend(a, b[..|b| - 1], f);
    }
  }

  /** A progress step carries the stripped line, which is non-empty and
      holds no signature. */
  lemma ProgressIsClean(e: ReadEvent)
    requires ClassifyRead(e).Progress?
    ensures ClassifyRead(e).text == Strip(e.line)
    ensures ClassifyRead(e).text != [] && HandleError(ClassifyRead(e).text).None?
  {
  }

  /** The classification of every read of a stream. */
  function Steps(stream: seq<ReadEvent>): (r: seq<Step>)
    ensures |r| == |stream|
  {
    MapReads(stream, ClassifyRead)
  }

  /** Each step is the classification of the read at the same position. */
  lemma StepsAt(stream: seq<ReadEvent>, j: nat)
    requires j < |stream|
    ensures |Steps(stream)| == |stream| && Steps(stream)[j] == ClassifyRead(stream[j])
  {
    MapReadsAt(stream, ClassifyRead, j);
  }

  /** Classifying a prefix of the stream gives the prefix of the steps. */
  lemma StepsPrefix(stream: seq<ReadEvent>, i: nat)
    requires i <= |stream|
    ensures |Steps(stream)| == |stream| && Steps(stream)[..i] == Steps(stream[..i])
  {
    MapReadsPrefix(stream, ClassifyRead, i);
  }

  /** Classifying a stream piece by piece classifies the pieces one after the other. */
  lemma StepsAppend(a: seq<ReadEvent>, b: seq<ReadEvent>)
    ensures Steps(a + b) == Steps(a) + Steps(b)
  {
    MapReadsAppend(a, b, ClassifyRead);
  }

  /** The loop leaves at this step: at an empty read once the engine has
      finished, or by raising at a signature. */
  predicate Stops(s: Step)
  {
    s.Fatal? || (s.Quiet? && s.exited)
  }

  /** The index of the step at which the loop stops, or `|steps|` when it reads
      the whole stream. */
  function StopAt(steps: seq<Step>): (k: nat)
    ensures k <= |steps|
    ensures forall j :: 0 <= j < k ==> !Stops(steps[j])
    ensures k < |steps| ==> Stops(steps[k])
  {
    if steps == [] || Stops(steps[0]) then 0 else 1 + StopAt(steps[1..])
  }

  /** The progress lines among `steps`, in stream order. */
  function Echoes(steps: seq<Step>): (r: seq<string>)
    ensures |r| <= |steps|
  {
    if steps == [] then []
    else
      var s := steps[|steps| - 1];
      var rest := Echoes(steps[..|steps| - 1]);
      if s.Progress? then rest + [s.text] else rest
  }

  /** Echoing a stream piece by piece echoes the pieces one after the other. */
  lemma {:induction false} EchoesAppend(a: seq<Step>, b: seq<Step>)
    ensures Echoes(a + b) == Echoes(a) + Echoes(b)
    decreases |b|
  {
    if b == [] {
      assert a + b == a;
    } else {
      assert (a + b)[..|a + b| - 1] == a + b[..|b| - 1];
      EchoesAppend(a, b[..|b| - 1]);
    }
  }

  /** The lines echoed are exactly the texts of the progress steps. */
  lemma {:induction false} EchoesMembers(steps: seq<Step>, x: string)
    ensures x in Echoes(steps) <==> exists j :: 0 <= j < |steps| && steps[j] == Progress(x)
    decreases |steps|
  {
    if steps != [] {
      var n := |steps| - 1;
      var init := steps[..n];
      EchoesMembers(init, x);
      if exists j :: 0 <= j < |init| && init[j] == Progress(x) {
        var j :| 0 <= j < |init| && init[j] == Progress(x);
        assert steps[j] == init[j];
      }
      if exists j :: 0 <= j < |steps| && steps[j] == Progress(x) {
        var j :| 0 <= j < |steps| && steps[j] == Progress(x);
        if j < n {
          assert init[j] == steps[j];
        }
      }
    }
  }

  /** Every line echoed is the stripped text of a read, non-empty, and has
      passed `handle_error`. */
  lemma EchoesClean(stream: seq<ReadEvent>, n: nat)
    requires n <= |stream|
    ensures forall l :: l in Echoes(Steps(stream)[..n]) ==>
      && l != [] && HandleError(l).None?
      && exists j :: 0 <= j < n && Strip(stream[j].line) == l
  {
    var steps := Steps(stream);
    forall l | l in Echoes(steps[..n])
      ensures l != [] && HandleError(l).None? && exists j :: 0 <= j < n && Strip(stream[j].line) == l
    {
      EchoesMembers(steps[..n], l);
      var j :| 0 <= j < n && steps[..n][j] == Progress(l);
      StepsAt(stream, j);
      ProgressIsClean(stream[j]);
    }
  }

  /** The loop's exit: a stream whose first `i` reads do not stop the loop,
      and whose read `i` (if any) does, stops at `i`. */
  lemma StopAtExit(stream: seq<ReadEvent>, i: nat)
    requires i <= |stream|
    requires forall j :: 0 <= j < i ==> !Stops(Steps(stream[..i])[j])
    requires i < |stream| ==> Stops(ClassifyRead(stream[i]))
    ensures StopAt(Steps(stream)) == i
    ensures Steps(stream)[..i] == Steps(stream[..i])
  {
    var steps := Steps(stream);
    StepsPrefix(stream, i);
    assert forall j :: 0 <= j < i ==> steps[j] == steps[..i][j];
    if i < |stream| {
      StepsAt(stream, i);
    }
    StopAtIs(steps, i);
  }

  /** Reading one more line classifies one more step. */
  lemma StepsSnoc(stream: seq<ReadEvent>, i: nat)
    requires i < |stream|
    ensures Steps(stream[..i + 1]) == Steps(stream[..i]) + [ClassifyRead(stream[i])]
  {
    assert stream[..i + 1] == stream[..i] + [stream[i]];
    StepsAppend(stream[..i], [stream[i]]);
  }

  /** The outcome of a run whose loop stopped at read `i` on a signature. */
  lemma FaultOutcome(run: EngineRun, i: nat)
    requires i < |run.stream| && StopAt(Steps(run.stream)) == i
    requires ClassifyRead(run.stream[i]).Fatal?
    ensures RunOutcome(run) == Some(EngineReported(ClassifyRead(run.stream[i]).kind, ClassifyRead(run.stream[i]).text))
  {
    StepsAt(run.stream, i);
  }

  /** The outcome of a run whose loop ended without a signature. */
  lemma QuietOutcome(run: EngineRun, i: nat)
    requires i <= |run.stream| && StopAt(Steps(run.stream)) == i
    requires i < |run.stream| ==> !ClassifyRead(run.stream[i]).Fatal?
    ensures RunOutcome(run) == AfterStream(run.rawOut, run.rawErr, run.exitCode)
  {
    if i < |run.stream| {
      StepsAt(run.stream, i);
    }
  }

  /** `StopAt` is the first position at which a step stops the loop. */
  lemma StopAtIs(steps: seq<Step>, i: nat)
    requires i <= |steps|
    requires forall j :: 0 <= j < i ==> !Stops(steps[j])
    requires i < |steps| ==> Stops(steps[i])
    ensures StopAt(steps) == i
  {
  }

  /** The failure the loop raises, if it stops at a signature. */
  function StreamFault(steps: seq<Step>): (r: Option<Failure>)
    ensures r.None? <==> forall j :: 0 <= j < |steps| && j <= StopAt(steps) ==> !steps[j].Fatal?
    ensures r.Some? ==> StopAt(steps) < |steps| && steps[StopAt(steps)].Fatal?
    ensures r.Some? ==> r == Some(EngineReported(steps[StopAt(steps)].kind, steps[StopAt(steps)].text))
  {
    var k := StopAt(steps);
    if k < |steps| && steps[k].Fatal? then Some(EngineReported(steps[k].kind, steps[k].text))
    else None
  }

  /** The checks once the loop has ended: the remaining standard output, then
      the standard error, are searched for signatures, then the exit status
      must be zero. */
  function AfterStream(rawOut: string, rawErr: string, code: int): (r: Option<Failure>)
    ensures r.None? <==> HandleError(rawOut).None? && HandleError(rawErr).None? && code == 0
    ensures HandleError(rawOut).Some? ==> r == Some(EngineReported(HandleError(rawOut).value, rawOut))
    ensures HandleError(rawOut).None? && HandleError(rawErr).Some? ==>
      r == Some(EngineReported(HandleError(rawErr).value, rawErr))
    ensures HandleError(rawOut).None? && HandleError(rawErr).None? && code != 0 ==>
      r == Some(EngineExitedNonZero(code, rawErr))
  {
    match HandleError(rawOut)
    case Some(kind) => Some(EngineReported(kind, rawOut))
    case None =>
      match HandleError(rawErr)
      case Some(kind) => Some(EngineReported(kind, rawErr))
      case None => if code != 0 then Some(EngineExitedNonZero(code, rawErr)) else None
  }

  /** How a run of the engine ends for the task: `None` when it succeeded. */
  function RunOutcome(run: EngineRun): (r: Option<Failure>)
    ensures r.None? <==>
      && StreamFault(Steps(run.stream)).None?
      && HandleError(run.rawOut).None? && HandleError(run.rawErr).None? && run.exitCode == 0
  {
    match StreamFault(Steps(run.stream))
    case Some(f) => Some(f)
    case None => AfterStream(run.rawOut, run.rawErr, run.exitCode)
  }

  /** The lines the loop echoes. */
  function Echoed(stream: seq<ReadEvent>): seq<string>
  {
    var steps := Steps(stream);
    Echoes(steps[..StopAt(steps)])
  }

  /** The stream loop and the checks after it: each stripped non-empty line is
      classified, then echoed; the loop ends on an empty read once the engine
      has finished, or at the end of the stream. */
  method Monitor(run: EngineRun) returns (echoed: seq<string>, failure: Option<Failure>)
    ensures echoed == Echoed(run.stream)
    ensures failure == RunOutcome(run)
    ensures forall l :: l in echoed ==> l != [] && HandleError(l).None?
  {
    var stream := run.stream;
    ghost var seen: seq<Step> := [];
    echoed := [];
    var i := 0;
    while i < |stream|
      invariant 0 <= i <= |stream|
      invariant seen == Steps(stream[..i])
      invariant forall j :: 0 <= j < i ==> !Stops(seen[j])
      invariant echoed == Echoes(seen)
    {
      var step := ClassifyRead(stream[i]);
      if step.Quiet? && step.exited {
        break;
      }
      if step.Fatal? {
        LeaveAtSignature(run, i, seen, echoed);
        failure := Some(EngineReported(step.kind, step.text));
        return;
      }
      ReadOn(stream, i, seen, step, echoed);
      seen := seen + [step];
      if step.Progress? {
        echoed := echoed + [step.text];
      }
      i := i + 1;
    }
    LeaveQuietly(run, i, seen, echoed);
    failure := AfterStream(run.rawOut, run.rawErr, run.exitCode);
  }

  /** The loop goes on past a step that does not stop it: the steps seen still
      hold no stop, and the step is echoed when it is a progress line. */
  lemma SeeOneMore(seen: seq<Step>, step: Step, echoed: seq<string>)
    requires forall j :: 0 <= j < |seen| ==> !Stops(seen[j])
    requires echoed == Echoes(seen)
    requires !Stops(step)
    ensures forall j :: 0 <= j < |seen| + 1 ==> !Stops((seen + [step])[j])
    ensures Echoes(seen + [step]) == echoed + if step.Progress? then [step.text] else []
  {
    assert (seen + [step])[..|seen + [step]| - 1] == seen;
  }

  /** The loop goes on past read `i`, which does not stop it. */
  lemma ReadOn(stream: seq<ReadEvent>, i: nat, seen: seq<Step>, step: Step, echoed: seq<string>)
    requires i < |stream| && seen == Steps(stream[..i]) && step == ClassifyRead(stream[i])
    requires forall j :: 0 <= j < i ==> !Stops(seen[j])
    requires echoed == Echoes(seen)
    requires !Stops(step)
    ensures seen + [step] == Steps(stream[..i + 1])
    ensures forall j :: 0 <= j < i + 1 ==> !Stops((seen + [step])[j])
    ensures Echoes(seen + [step]) == echoed + if step.Progress? then [step.text] else []
  {
    StepsSnoc(stream, i);
    SeeOneMore(seen, step, echoed);
  }

  /** The loop leaves at read `i` by raising at a signature. */
  lemma LeaveAtSignature(run: EngineRun, i: nat, seen: seq<Step>, echoed: seq<string>)
    requires i < |run.stream| && seen == Steps(run.stream[..i])
    requires forall j :: 0 <= j < i ==> !Stops(seen[j])
    requires echoed == Echoes(seen)
    requires ClassifyRead(run.stream[i]).Fatal?
    ensures echoed == Echoed(run.stream)
    ensures RunOutcome(run) == Some(EngineReported(ClassifyRead(run.stream[i]).kind, ClassifyRead(run.stream[i]).text))
    ensures forall l :: l in echoed ==> l != [] && HandleError(l).None?
  {
    StopAtExit(run.stream, i);
    FaultOutcome(run, i);
    EchoesClean(run.stream, i);
  }

  /** The loop leaves at read `i` because the engine has finished, or after
      the last read. */
  lemma LeaveQuietly(run: EngineRun, i: nat, seen: seq<Step>, echoed: seq<string>)
    requires i <= |run.stream| && seen == Steps(run.stream[..i])
    requires forall j :: 0 <= j < i ==> !Stops(seen[j])
    requires echoed == Echoes(seen)
    requires i < |run.stream| ==> ClassifyRead(run.stream[i]).Quiet? && ClassifyRead(run.stream[i]).exited
    ensures echoed == Echoed(run.stream)
    ensures RunOutcome(run) == AfterStream(run.rawOut, run.rawErr, run.exitCode)
    ensures forall l :: l in echoed ==> l != [] && HandleError(l).None?
  {
    StopAtExit(run.stream, i);
    QuietOutcome(run, i);
    EchoesClean(run.stream, i);
  }

  // ---------------------------------------------------------------------------
  // Properties of a run

  /** Once the loop has stopped inside the stream, whatever the engine writes
      afterwards changes neither the lines echoed nor the outcome of the loop. */
  lemma {:induction false} LaterStepsIgnored(steps: seq<Step>, more: seq<Step>)
    requires StopAt(steps) < |steps|
    ensures StopAt(steps + more) == StopAt(steps)
    ensures (steps + more)[..StopAt(steps)] == steps[..StopAt(steps)]
    ensures StreamFault(steps + more) == StreamFault(steps)
    decreases |steps|
  {
    assert (steps + more)[0] == steps[0];
    if !Stops(steps[0]) {
      assert (steps + more)[1..] == steps[1..] + more;
      LaterStepsIgnored(steps[1..], more);
    }
    var k := StopAt(steps);
    assert (steps + more)[..k] == steps[..k];
    assert (steps + more)[k] == steps[k];
  }

  /** The same fact for the reads themselves. */
  lemma LaterReadsIgnored(stream: seq<ReadEvent>, more: seq<ReadEvent>)
    requires StopAt(Steps(stream)) < |stream|
    ensures Echoed(stream + more) == Echoed(stream)
    ensures StreamFault(Steps(stream + more)) == StreamFault(Steps(stream))
  {
    StepsAppend(stream, more);
    LaterStepsIgnored(Steps(stream), Steps(more));
  }

  /** No read from the faulting one on is echoed. */
  lemma FaultEndsEchoes(stream: seq<ReadEvent>)
    requires StreamFault(Steps(stream)).Some?
    ensures forall l :: l in Echoed(stream) ==>
      exists j :: 0 <= j < StopAt(Steps(stream)) && Strip(stream[j].line) == l
  {
    EchoesClean(stream, StopAt(Steps(stream)));
  }

  /** Every signature starts and ends with a character that is not whitespace,
      so stripping a line never hides it. */
  lemma SignaturesSolid()
    ensures forall i :: 0 <= i < |Signatures| ==>
      Signatures[i].0 != [] && !IsSpace(Signatures[i].0[0]) && !IsSpace(Signatures[i].0[|Signatures[i].0| - 1])
  {
    assert |Signatures| == 4;
    assert Signatures[0].0 == ResourceSignature;
    assert Signatures[1].0 == ServiceSignature;
    assert Signatures[2].0 == MsaSignature;
    assert Signatures[3].0 == FeaturesSignature;
  }

  /** A text holding some signature makes `handle_error` raise. */
  lemma SignatureRaises(out: string, i: nat)
    requires i < |Signatures| && Contains(out, Signatures[i].0)
    ensures HandleError(out).Some?
  {
    assert |Signatures| == 4;
    assert Signatures[0].0 == ResourceSignature;
    assert Signatures[1].0 == ServiceSignature;
    assert Signatures[2].0 == MsaSignature;
    assert Signatures[3].0 == FeaturesSignature;
  }

  /** A read holding a signature is fatal. */
  lemma SignatureLineFatal(e: ReadEvent, i: nat)
    requires i < |Signatures| && Contains(e.line, Signatures[i].0)
    ensures ClassifyRead(e).Fatal?
  {
    SignaturesSolid();
    StripKeeps(e.line, Signatures[i].0);
    SignatureRaises(Strip(e.line), i);
  }

  /** A fatal read no later than the stop makes the loop raise. */
  lemma FatalReadFails(stream: seq<ReadEvent>, j: nat)
    requires j < |stream| && j <= StopAt(Steps(stream))
    requires ClassifyRead(stream[j]).Fatal?
    ensures StreamFault(Steps(stream)).Some?
  {
    StepsAt(stream, j);
  }

  /** No signature escapes: one found in a line the loop reads, in the remaining
      standard output or in the standard error makes the run fail with the
      error of a signature. */
  lemma NoSignatureEscapes(run: EngineRun, j: nat, i: nat)
    requires i < |Signatures|
    requires || (j < |run.stream| && j <= StopAt(Steps(run.stream)) && Contains(run.stream[j].line, Signatures[i].0))
             || Contains(run.rawOut, Signatures[i].0)
             || Contains(run.rawErr, Signatures[i].0)
    ensures RunOutcome(run).Some? && RunOutcome(run).value.EngineReported?
  {
    if j < |run.stream| && j <= StopAt(Steps(run.stream)) && Contains(run.stream[j].line, Signatures[i].0) {
      SignatureLineFatal(run.stream[j], i);
      FatalReadFails(run.stream, j);
    } else if Contains(run.rawOut, Signatures[i].0) {
      SignatureRaises(run.rawOut, i);
    } else {
      SignatureRaises(run.rawErr, i);
    }
  }

  /** No signature of `handle_error` occurs in `s`. */
  predicate SignatureFree(s: string)
  {
    forall i :: 0 <= i < |Signatures| ==> !Contains(s, Signatures[i].0)
  }

  /** `handle_error` returns normally exactly for text free of signatures. */
  lemma HandleErrorNoneIff(out: string)
    ensures HandleError(out).None? <==> SignatureFree(out)
  {
    assert |Signatures| == 4;
    assert Signatures[0].0 == ResourceSignature;
    assert Signatures[1].0 == ServiceSignature;
    assert Signatures[2].0 == MsaSignature;
    assert Signatures[3].0 == FeaturesSignature;
  }

  /** A read is fatal exactly when its line holds a signature. */
  lemma ReadFatalIff(e: ReadEvent)
    ensures ClassifyRead(e).Fatal? <==> !SignatureFree(e.line)
  {
    if !SignatureFree(e.line) {
      var i :| 0 <= i < |Signatures| && Contains(e.line, Signatures[i].0);
      SignatureLineFatal(e, i);
    }
    if ClassifyRead(e).Fatal? {
      HandleErrorNoneIff(Strip(e.line));
      var i :| 0 <= i < |Signatures| && Contains(Strip(e.line), Signatures[i].0);
      StripContainsOnly(e.line, Signatures[i].0);
    }
  }

  /** The loop raises exactly when a line it reaches holds a signature. */
  lemma StreamFaultIff(stream: seq<ReadEvent>)
    ensures StreamFault(Steps(stream)).None? <==>
      forall j :: 0 <= j < |stream| && j <= StopAt(Steps(stream)) ==> SignatureFree(stream[j].line)
  {
    var steps := Steps(stream);
    var k := StopAt(steps);
    if StreamFault(steps).None? {
      forall j | 0 <= j < |stream| && j <= k
        ensures SignatureFree(stream[j].line)
      {
        StepsAt(stream, j);
        ReadFatalIff(stream[j]);
      }
    } else {
      StepsAt(stream, k);
      ReadFatalIff(stream[k]);
    }
  }

  /** A run succeeds exactly when no line the loop reaches, nor the remaining
      standard output, nor the standard error holds a signature, and the
      engine exits with status zero. */
  lemma RunSucceedsIff(run: EngineRun)
    ensures RunOutcome(run).None? <==>
      && (forall j :: 0 <= j < |run.stream| && j <= StopAt(Steps(run.stream)) ==> SignatureFree(run.stream[j].line))
      && SignatureFree(run.rawOut) && SignatureFree(run.rawErr) && run.exitCode == 0
  {
    StreamFaultIff(run.stream);
    HandleErrorNoneIff(run.rawOut);
    HandleErrorNoneIff(run.rawErr);
  }

  /** The lines echoed are exactly the non-empty stripped reads before the
      stop that `handle_error` lets through. */
  lemma EchoedIff(stream: seq<ReadEvent>, l: string)
    ensures l in Echoed(stream) <==>
      exists j :: 0 <= j < StopAt(Steps(stream)) && Strip(stream[j].line) == l && l != [] && HandleError(l).None?
  {
    var steps := Steps(stream);
    var k := StopAt(steps);
    EchoesMembers(steps[..k], l);
    if l in Echoed(stream) {
      var j :| 0 <= j < k && steps[..k][j] == Progress(l);
      StepsAt(stream, j);
    }
    if exists j :: 0 <= j < k && Strip(stream[j].line) == l && l != [] && HandleError(l).None? {
      var j :| 0 <= j < k && Strip(stream[j].line) == l && l != [] && HandleError(l).None?;
      StepsAt(stream, j);
      assert steps[..k][j] == Progress(l);
    }
  }

  /** An engine that exits with a non-zero status fails the run even when no
      signature was seen. */
  lemma NonZeroExitFails(run: EngineRun)
    requires StreamFault(Steps(run.stream)).None?
    requires HandleError(run.rawOut).None? && HandleError(run.rawErr).None?
    requires run.exitCode != 0
    ensures RunOutcome(run) == Some(EngineExitedNonZero(run.exitCode, run.rawErr))
  {
  }
}
