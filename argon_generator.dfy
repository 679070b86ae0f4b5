/**
  The Argon incremental generator: the same pipeline as the TeknixIT one, with its keys and
  defaults written as literals. Option keys are given without the MSBuild metadata prefix and
  `GetBool` / `GetString` add it; the `SourceItemType` filter spells the whole key out.

  Loading the OpenAPI document and the passes themselves are foreign calls: an `Environment`
  says, per configuration, what loading returned and whether a pass threw.
*/
module ArgonGenerator {
  import opened Wrappers
  import opened ConfigOptions
  import opened GeneratorInputs

  const SourceItemTypeKey: string := "build_metadata.AdditionalFiles.SourceItemType"
  const SourceItemTypeValue: string := "OpenApiGenerator"

  datatype GeneratorConfiguration = GeneratorConfiguration(
    openApiFile: string,
    generateDtos: bool,
    generateControllers: bool,
    useRecords: bool,
    generateValidationAttributes: bool,
    generateXmlDocumentation: bool,
    useAsyncControllers: bool,
    addApiControllerAttribute: bool,
    baseNamespace: string,
    dtosNamespace: string,
    controllersNamespace: string,
    controllerBaseClass: string)

  // ---------------------------------------------------------------------------------------
  // Selecting the files to process
  // ---------------------------------------------------------------------------------------

  /** A file is processed when its `SourceItemType` metadata is exactly `OpenApiGenerator`. */
  predicate IsMarked(f: AdditionalFile) {
    SourceItemTypeKey in f.options && f.options[SourceItemTypeKey] == SourceItemTypeValue
  }

  /** The `Select` step: the file itself when it is marked, `null` otherwise. */
  function Select(f: AdditionalFile): (r: Option<AdditionalFile>)
    ensures r.Some? <==> IsMarked(f)
    ensures r.Some? ==> r.value == f
  {
    if SourceItemTypeKey !in f.options || f.options[SourceItemTypeKey] != SourceItemTypeValue
    then None
    else Some(f)
  }

  function Candidates(files: seq<AdditionalFile>): (r: seq<Option<AdditionalFile>>)
    ensures |r| == |files|
    ensures forall i :: 0 <= i < |files| ==> r[i] == Select(files[i])
  {
    seq(|files|, i requires 0 <= i < |files| => Select(files[i]))
  }

  /** The files the generator goes on to configure. */
  function MarkedFiles(files: seq<AdditionalFile>): (r: seq<AdditionalFile>)
    ensures |r| <= |files|
    ensures forall f :: f in r <==> f in files && IsMarked(f)
  {
    var candidates := Candidates(files);
    var r := Present(candidates);
    PresentMembers(candidates);
    assert forall f :: Some(f) in candidates ==> f in files && IsMarked(f) by {
      forall f | Some(f) in candidates
        ensures f in files && IsMarked(f)
      {
        var i :| 0 <= i < |candidates| && candidates[i] == Some(f);
      }
    }
    assert forall f :: f in files && IsMarked(f) ==> Some(f) in candidates by {
      forall f | f in files && IsMarked(f)
        ensures Some(f) in candidates
      {
        var i :| 0 <= i < |files| && files[i] == f;
        assert candidates[i] == Some(f);
      }
    }
    r
  }

  /** The marker value must match exactly: a different casing or surrounding blanks drop the file. */
  lemma MarkerIsExact(path: string, value: string)
    requires value != SourceItemTypeValue
    ensures MarkedFiles([AdditionalFile(path, map[SourceItemTypeKey := value])]) == []
  {
    var f := AdditionalFile(path, map[SourceItemTypeKey := value]);
    var none: Option<AdditionalFile> := None;
    assert Candidates([f]) == [none];
    assert [none][..0] == [];
  }

  /**
    The filter reads the same prefixed key that `GetString` reads for `SourceItemType`: with any
    default other than the marker, a file is kept exactly when that option reads as the marker.
  */
  lemma SelectReadsPrefixedOption(f: AdditionalFile, defaultValue: string)
    requires defaultValue != SourceItemTypeValue
    ensures Select(f).Some? <==> GetString(f.options, "SourceItemType", defaultValue) == SourceItemTypeValue
  {
    assert SourceItemTypeKey == MetadataPrefix + "SourceItemType";
    assert !IsNullOrWhiteSpace(SourceItemTypeValue) by {
      assert !IsWhiteSpace(SourceItemTypeValue[0]);
    }
  }

  /** Filtering files one batch at a time gives the same files, in the same order, as filtering them together. */
  lemma MarkedFilesAppend(a: seq<AdditionalFile>, b: seq<AdditionalFile>)
    ensures MarkedFiles(a + b) == MarkedFiles(a) + MarkedFiles(b)
  {
    var ca, cb := Candidates(a), Candidates(b);
    forall i | 0 <= i < |a + b|
      ensures Candidates(a + b)[i] == (ca + cb)[i]
    {
      if i < |a| {
        assert (a + b)[i] == a[i];
      } else {
        assert (a + b)[i] == b[i - |a|];
      }
    }
    assert Candidates(a + b) == ca + cb;
    PresentAppend(ca, cb);
  }

  // ---------------------------------------------------------------------------------------
  // One configuration per file
  // ---------------------------------------------------------------------------------------

  /** The configuration built for one kept file, with the literal defaults. */
  function ConfigurationFor(f: AdditionalFile): GeneratorConfiguration {
    var o := f.options;
    GeneratorConfiguration(
      f.path,
      GetBool(o, "GenerateDtos", true),
      GetBool(o, "GenerateControllers", true),
      GetBool(o, "UseRecords", true),
      GetBool(o, "GenerateValidationAttributes", true),
      GetBool(o, "GenerateXmlDocumentation", true),
      GetBool(o, "UseAsyncControllers", true),
      GetBool(o, "AddApiControllerAttribute", true),
      GetString(o, "BaseNamespace", "Generated"),
      GetString(o, "DtosNamespace", "Dtos"),
      GetString(o, "ControllersNamespace", "Controllers"),
      GetString(o, "ControllerBaseClass", "ControllerBase"))
  }

  /** The option of a file stored under the prefixed form of `key`. */
  function Key(key: string): string {
    MetadataPrefix + key
  }

  /** The configuration of a file holds its path; each boolean is on unless its prefixed option parses as `false`. */
  lemma ConfigurationSwitches(f: AdditionalFile)
    ensures var c := ConfigurationFor(f);
            var o := f.options;
            c.openApiFile == f.path &&
            (!c.generateDtos <==> SwitchedOff(o, Key("GenerateDtos"))) &&
            (!c.generateControllers <==> SwitchedOff(o, Key("GenerateControllers"))) &&
            (!c.useRecords <==> SwitchedOff(o, Key("UseRecords"))) &&
            (!c.generateValidationAttributes <==> SwitchedOff(o, Key("GenerateValidationAttributes"))) &&
            (!c.generateXmlDocumentation <==> SwitchedOff(o, Key("GenerateXmlDocumentation"))) &&
            (!c.useAsyncControllers <==> SwitchedOff(o, Key("UseAsyncControllers"))) &&
            (!c.addApiControllerAttribute <==> SwitchedOff(o, Key("AddApiControllerAttribute")))
  {
  }

  /**
    Each string of the configuration is its prefixed option unless that is absent or blank,
    with `Generated`, `Dtos`, `Controllers` and `ControllerBase` as defaults.
  */
  lemma ConfigurationStrings(f: AdditionalFile)
    ensures var c := ConfigurationFor(f);
            var o := f.options;
            c.baseNamespace == (if Provided(o, Key("BaseNamespace")) then o[Key("BaseNamespace")] else "Generated") &&
            c.dtosNamespace == (if Provided(o, Key("DtosNamespace")) then o[Key("DtosNamespace")] else "Dtos") &&
            c.controllersNamespace ==
              (if Provided(o, Key("ControllersNamespace")) then o[Key("ControllersNamespace")] else "Controllers") &&
            c.controllerBaseClass ==
              (if Provided(o, Key("ControllerBaseClass")) then o[Key("ControllerBaseClass")] else "ControllerBase")
  {
  }

  /** A file that carries only its marker gets every boolean switched on and the literal default strings. */
  lemma DefaultConfiguration(path: string)
    ensures var f := AdditionalFile(path, map[SourceItemTypeKey := SourceItemTypeValue]);
            var c := ConfigurationFor(f);
            IsMarked(f) &&
            c.generateDtos && c.generateControllers && c.useRecords &&
            c.generateValidationAttributes && c.generateXmlDocumentation &&
            c.useAsyncControllers && c.addApiControllerAttribute &&
            c.baseNamespace == "Generated" && c.dtosNamespace == "Dtos" &&
            c.controllersNamespace == "Controllers" && c.controllerBaseClass == "ControllerBase"
  {
  }

  /** The `foreach` that builds the list: skips null items and adds one configuration per item, in order. */
  method CollectConfigurations(items: seq<Option<AdditionalFile>>)
    returns (configurations: seq<GeneratorConfiguration>)
    ensures |configurations| == |Present(items)|
    ensures forall i :: 0 <= i < |configurations| ==>
              configurations[i] == ConfigurationFor(Present(items)[i])
  {
    var build := ConfigurationFor;
    configurations := CollectAll(items, build);
    MapFilesAt(build, Present(items));
  }

  /**
    `Initialize` up to the configuration list: select, drop the null items, build one
    configuration per remaining item. The `Where` and the loop's `continue` drop the same null
    items, so the loop is given the selected items directly.
  */
  method Initialize(files: seq<AdditionalFile>) returns (configurations: seq<GeneratorConfiguration>)
    ensures |configurations| == |MarkedFiles(files)|
    ensures forall i :: 0 <= i < |configurations| ==>
              configurations[i] == ConfigurationFor(MarkedFiles(files)[i])
  {
    configurations := CollectConfigurations(Candidates(files));
  }

  // ---------------------------------------------------------------------------------------
  // Running the generation passes
  // ---------------------------------------------------------------------------------------

  /** How the foreign calls behave for one configuration: what loading does, and the message a pass throws, if it throws. */
  datatype Environment = Environment(load: Load, dtosThrow: Option<string>, controllersThrow: Option<string>)

  datatype Pass = DtosPass(file: string) | ControllersPass(file: string)

  /**
    ARGON001 and ARGON002, with the text their messages interpolate. ARGON001 formats the
    configuration object, which prints as its type name because `GeneratorConfiguration` does
    not override `ToString`, and the exception message: only the message varies. ARGON002
    formats the file path.
  */
  datatype Diagnostic = GenerationError(message: string) | InvalidDocument(file: string)

  /** What a run leaves in the source production context: a completed pass or a reported diagnostic. */
  datatype Event = Generated(pass: Pass) | Reported(diagnostic: Diagnostic)

  /** The events of one `GenerateFromConfiguration` call, and the message of the exception it ends with, if any. */
  datatype Run = Run(events: seq<Event>, thrown: Option<string>)

  /** The document loaded without throwing and was not rejected. */
  predicate DocumentReady(env: Environment) {
    env.load.Loaded? && !IsInvalid(env.load.result)
  }

  /** The DTO pass is started: the document is ready, the option is on and the document has schemas. */
  predicate DtosStarted(c: GeneratorConfiguration, env: Environment) {
    DocumentReady(env) && c.generateDtos && env.load.result.document.value.hasSchemas
  }

  /** The controllers pass is started: the document is ready, the option is on and the DTO pass did not throw. */
  predicate ControllersStarted(c: GeneratorConfiguration, env: Environment) {
    DocumentReady(env) && c.generateControllers &&
    !(DtosStarted(c, env) && env.dtosThrow.Some?)
  }

  /** One configuration: load the document, reject it, or run the DTO and controllers passes. */
  function GenerateFromConfiguration(c: GeneratorConfiguration, env: Environment): (r: Run)
    ensures env.load.LoadThrew? ==> r == Run([], Some(env.load.message))
    ensures env.load.Loaded? && IsInvalid(env.load.result) ==>
              r == Run([Reported(InvalidDocument(c.openApiFile))], None)
    ensures Generated(DtosPass(c.openApiFile)) in r.events <==>
              DtosStarted(c, env) && env.dtosThrow.None?
    ensures Generated(ControllersPass(c.openApiFile)) in r.events <==>
              ControllersStarted(c, env) && env.controllersThrow.None?
    ensures r.thrown.Some? <==>
              env.load.LoadThrew? ||
              (DtosStarted(c, env) && env.dtosThrow.Some?) ||
              (ControllersStarted(c, env) && env.controllersThrow.Some?)
    ensures DtosStarted(c, env) && env.dtosThrow.Some? ==> r.thrown == env.dtosThrow
    ensures ControllersStarted(c, env) && env.controllersThrow.Some? ==> r.thrown == env.controllersThrow
    ensures DocumentReady(env) ==>
              r.events ==
                (if DtosStarted(c, env) && env.dtosThrow.None? then [Generated(DtosPass(c.openApiFile))] else []) +
                (if ControllersStarted(c, env) && env.controllersThrow.None?
                 then [Generated(ControllersPass(c.openApiFile))] else [])
    ensures forall e :: e in r.events ==>
              e in [Reported(InvalidDocument(c.openApiFile)),
                    Generated(DtosPass(c.openApiFile)),
                    Generated(ControllersPass(c.openApiFile))]
  {
    match env.load
    case LoadThrew(message) => Run([], Some(message))
    case Loaded(result) =>
      if result.document.None? || (result.errors.Some? && |result.errors.value| > 0) then
        Run([Reported(InvalidDocument(c.openApiFile))], None)
      else
        var runDtos := c.generateDtos && result.document.value.hasSchemas;
        if runDtos && env.dtosThrow.Some? then Run([], env.dtosThrow)
        else
          var done := if runDtos then [Generated(DtosPass(c.openApiFile))] else [];
          if !c.generateControllers then Run(done, None)
          else if env.controllersThrow.Some? then Run(done, env.controllersThrow)
          else Run(done + [Generated(ControllersPass(c.openApiFile))], None)
  }

  /** The `try`/`catch` around one configuration: its events, then a `GenerationError` if it threw. */
  function Guarded(c: GeneratorConfiguration, env: Environment): (events: seq<Event>)
    ensures var r := GenerateFromConfiguration(c, env);
            r.thrown.None? ==> events == r.events
    ensures var r := GenerateFromConfiguration(c, env);
            r.thrown.Some? ==> events == r.events + [Reported(GenerationError(r.thrown.value))]
  {
    var r := GenerateFromConfiguration(c, env);
    if r.thrown.Some? then r.events + [Reported(GenerationError(r.thrown.value))] else r.events
  }

  /** One configuration inside its `try`/`catch`, as a function of the configuration. */
  function Step(env: GeneratorConfiguration -> Environment): GeneratorConfiguration -> seq<Event> {
    c => Guarded(c, env(c))
  }

  /** The events of running every configuration in order. */
  function RunAll(configurations: seq<GeneratorConfiguration>, env: GeneratorConfiguration -> Environment): seq<Event> {
    FlatMap(Step(env), configurations)
  }

  /** Running one more configuration appends its guarded events. */
  lemma RunAllSnoc(configurations: seq<GeneratorConfiguration>, env: GeneratorConfiguration -> Environment, k: nat)
    requires k < |configurations|
    ensures RunAll(configurations[..k + 1], env) ==
            RunAll(configurations[..k], env) + Guarded(configurations[k], env(configurations[k]))
  {
    FlatMapSnoc(Step(env), configurations, k);
  }

  /** The `RegisterSourceOutput` callback: every configuration in turn, each inside its own `try`/`catch`. */
  method RegisterSourceOutput(configurations: seq<GeneratorConfiguration>, env: GeneratorConfiguration -> Environment)
    returns (events: seq<Event>)
    ensures events == RunAll(configurations, env)
  {
    events := [];
    var k := 0;
    while k < |configurations|
      invariant 0 <= k <= |configurations|
      invariant events == RunAll(configurations[..k], env)
    {
      var configuration := configurations[k];
      RunAllSnoc(configurations, env, k);
      var run := GenerateFromConfiguration(configuration, env(configuration));
      events := events + run.events;
      if run.thrown.Some? {
        events := events + [Reported(GenerationError(run.thrown.value))];
      }
      k := k + 1;
    }
    assert configurations[..k] == configurations;
  }

  /** An exception in one configuration does not stop the later ones: runs compose by concatenation. */
  lemma RunAllAppend(a: seq<GeneratorConfiguration>, b: seq<GeneratorConfiguration>,
                      env: GeneratorConfiguration -> Environment)
    ensures RunAll(a + b, env) == RunAll(a, env) + RunAll(b, env)
  {
    FlatMapAppend(Step(env), a, b);
  }

  /** The number of `GenerationError` diagnostics among some events. */
  function ErrorCount(events: seq<Event>): (n: nat)
    ensures n <= |events|
  {
    if events == [] then 0
    else (if events[0].Reported? && events[0].diagnostic.GenerationError? then 1 else 0) + ErrorCount(events[1..])
  }

  lemma {:induction false} ErrorCountAppend(a: seq<Event>, b: seq<Event>)
    ensures ErrorCount(a + b) == ErrorCount(a) + ErrorCount(b)
    decreases |a|
  {
    if a == [] {
      assert a + b == b;
    } else {
      assert (a + b)[1..] == a[1..] + b;
      ErrorCountAppend(a[1..], b);
    }
  }

  /** The number of configurations whose `GenerateFromConfiguration` call throws. */
  function FailureCount(configurations: seq<GeneratorConfiguration>, env: GeneratorConfiguration -> Environment): (n: nat)
    ensures n <= |configurations|
  {
    if configurations == [] then 0
    else
      var last := configurations[|configurations| - 1];
      FailureCount(configurations[..|configurations| - 1], env) +
      (if GenerateFromConfiguration(last, env(last)).thrown.Some? then 1 else 0)
  }

  /** Exactly one `GenerationError` per configuration that threw, and none otherwise. */
  lemma {:induction false} OneErrorPerFailure(configurations: seq<GeneratorConfiguration>,
                                              env: GeneratorConfiguration -> Environment)
    ensures ErrorCount(RunAll(configurations, env)) == FailureCount(configurations, env)
    decreases |configurations|
  {
    if configurations != [] {
      var last := configurations[|configurations| - 1];
      var front := configurations[..|configurations| - 1];
      var r := GenerateFromConfiguration(last, env(last));
      OneErrorPerFailure(front, env);
      ErrorCountAppend(RunAll(front, env), Guarded(last, env(last)));
      NoErrorInRun(last, env(last));
      if r.thrown.Some? {
        var g := Reported(GenerationError(r.thrown.value));
        ErrorCountAppend(r.events, [g]);
        assert ErrorCount([g]) == 1;
      }
    }
  }

  /** `GenerateFromConfiguration` itself never reports a `GenerationError`. */
  lemma NoErrorInRun(c: GeneratorConfiguration, env: Environment)
    ensures ErrorCount(GenerateFromConfiguration(c, env).events) == 0
  {
    var events := GenerateFromConfiguration(c, env).events;
    NoErrorWithoutGenerationError(events);
  }

  lemma {:induction false} NoErrorWithoutGenerationError(events: seq<Event>)
    requires forall i :: 0 <= i < |events| ==> !(events[i].Reported? && events[i].diagnostic.GenerationError?)
    ensures ErrorCount(events) == 0
    decreases |events|
  {
    if events != [] {
      NoErrorWithoutGenerationError(events[1..]);
    }
  }

  /**
    Every ARGON001 diagnostic carries the message of an exception that some configuration
    threw; it does not say which file that configuration reads.
  */
  lemma {:induction false} ErrorsCarryFailureMessages(configurations: seq<GeneratorConfiguration>,
                                                      env: GeneratorConfiguration -> Environment,
                                                      message: string)
    requires Reported(GenerationError(message)) in RunAll(configurations, env)
    ensures exists c :: c in configurations && GenerateFromConfiguration(c, env(c)).thrown == Some(message)
    decreases |configurations|
  {
    var last := configurations[|configurations| - 1];
    var front := configurations[..|configurations| - 1];
    var r := GenerateFromConfiguration(last, env(last));
    var e := Reported(GenerationError(message));
    if e in RunAll(front, env) {
      ErrorsCarryFailureMessages(front, env, message);
      var c :| c in front && GenerateFromConfiguration(c, env(c)).thrown == Some(message);
      assert c in configurations;
    } else {
      assert e in Guarded(last, env(last));
      assert e !in r.events;
      assert last in configurations;
    }
  }

  /**
    Any two configurations that fail with the same message, in whichever step (loading, the DTO
    pass or the controllers pass) and for whichever files, end with the same ARGON001.
  */
  lemma ErrorsDoNotNameTheFile(c1: GeneratorConfiguration, e1: Environment,
                               c2: GeneratorConfiguration, e2: Environment, message: string)
    requires GenerateFromConfiguration(c1, e1).thrown == Some(message)
    requires GenerateFromConfiguration(c2, e2).thrown == Some(message)
    ensures |Guarded(c1, e1)| > 0 && |Guarded(c2, e2)| > 0
    ensures Guarded(c1, e1)[|Guarded(c1, e1)| - 1] == Guarded(c2, e2)[|Guarded(c2, e2)| - 1]
    ensures Guarded(c1, e1)[|Guarded(c1, e1)| - 1] == Reported(GenerationError(message))
  {
  }

  /** A rejected document yields exactly one `InvalidDocument` naming the file, and no pass. */
  lemma InvalidDocumentReportedOnce(c: GeneratorConfiguration, env: Environment)
    requires env.load.Loaded? && IsInvalid(env.load.result)
    ensures Guarded(c, env) == [Reported(InvalidDocument(c.openApiFile))]
  {
  }
}
