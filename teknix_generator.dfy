/**
  The TeknixIT incremental generator: which additional files it takes, the configuration it
  builds for each one, which generation passes run for a configuration, and the loop that
  runs every configuration and turns an exception into a diagnostic.

  The option keys and the default values live in a `Constants` class that is not part of this
  model; they are the parameters `MetadataKeys` and `Defaults`. Loading the OpenAPI document
  and the passes themselves are foreign calls: an `Environment` says, per configuration, what
  loading returned and whether a pass threw.
*/
module TeknixGenerator {
  import opened Wrappers
  import opened ConfigOptions
  import opened GeneratorInputs

  /** The option keys of `Constants.MetadataKeys`. */
  datatype MetadataKeys = MetadataKeys(
    sourceItemType: string,
    generateContracts: string,
    generateControllers: string,
    useRecords: string,
    generateValidationAttributes: string,
    generateXmlDocumentation: string,
    useAsyncControllers: string,
    addApiControllerAttribute: string,
    baseNamespace: string,
    contractsNamespace: string,
    controllersNamespace: string,
    controllerBaseClass: string)

  /** The values of `Constants.Defaults` the generator reads. */
  datatype Defaults = Defaults(
    sourceItemTypeValue: string,
    baseNamespace: string,
    contractsNamespace: string,
    controllersNamespace: string,
    controllerBaseClass: string)

  datatype ControllerGroupingStrategy = ByTag | ByFirstPathSegment | ByPath

  datatype GeneratorConfiguration = GeneratorConfiguration(
    openApiFile: string,
    generateContracts: bool,
    generateControllers: bool,
    useRecords: bool,
    generateValidationAttributes: bool,
    generateXmlDocumentation: bool,
    useAsyncControllers: bool,
    addApiControllerAttribute: bool,
    baseNamespace: string,
    contractsNamespace: string,
    controllersNamespace: string,
    controllerBaseClass: string,
    controllerGroupingStrategy: ControllerGroupingStrategy)

  // ---------------------------------------------------------------------------------------
  // Selecting the files to process
  // ---------------------------------------------------------------------------------------

  /** A file is processed when its `SourceItemType` metadata is present and equals the expected value. */
  predicate IsMarked(keys: MetadataKeys, defaults: Defaults, f: AdditionalFile) {
    keys.sourceItemType in f.options && f.options[keys.sourceItemType] == defaults.sourceItemTypeValue
  }

  /** The `Select` step: the file itself when it is marked, `null` otherwise. */
  function Select(keys: MetadataKeys, defaults: Defaults, f: AdditionalFile): (r: Option<AdditionalFile>)
    ensures r.Some? <==> IsMarked(keys, defaults, f)
    ensures r.Some? ==> r.value == f
  {
    if keys.sourceItemType !in f.options || f.options[keys.sourceItemType] != defaults.sourceItemTypeValue
    then None
    else Some(f)
  }

  function Candidates(keys: MetadataKeys, defaults: Defaults, files: seq<AdditionalFile>): (r: seq<Option<AdditionalFile>>)
    ensures |r| == |files|
    ensures forall i :: 0 <= i < |files| ==> r[i] == Select(keys, defaults, files[i])
  {
    seq(|files|, i requires 0 <= i < |files| => Select(keys, defaults, files[i]))
  }

  /** The files the generator goes on to configure. */
  function MarkedFiles(keys: MetadataKeys, defaults: Defaults, files: seq<AdditionalFile>): (r: seq<AdditionalFile>)
    ensures |r| <= |files|
    ensures forall f :: f in r <==> f in files && IsMarked(keys, defaults, f)
  {
    var candidates := Candidates(keys, defaults, files);
    var r := Present(candidates);
    PresentMembers(candidates);
    assert forall f :: Some(f) in candidates ==> f in files && IsMarked(keys, defaults, f) by {
      forall f | Some(f) in candidates
        ensures f in files && IsMarked(keys, defaults, f)
      {
        var i :| 0 <= i < |candidates| && candidates[i] == Some(f);
      }
    }
    assert forall f :: f in files && IsMarked(keys, defaults, f) ==> Some(f) in candidates by {
      forall f | f in files && IsMarked(keys, defaults, f)
        ensures Some(f) in candidates
      {
        var i :| 0 <= i < |files| && files[i] == f;
        assert candidates[i] == Some(f);
      }
    }
    r
  }

  /** Filtering files one batch at a time gives the same files, in the same order, as filtering them together. */
  lemma MarkedFilesAppend(keys: MetadataKeys, defaults: Defaults, a: seq<AdditionalFile>, b: seq<AdditionalFile>)
    ensures MarkedFiles(keys, defaults, a + b) == MarkedFiles(keys, defaults, a) + MarkedFiles(keys, defaults, b)
  {
    var ca, cb := Candidates(keys, defaults, a), Candidates(keys, defaults, b);
    forall i | 0 <= i < |a + b|
      ensures Candidates(keys, defaults, a + b)[i] == (ca + cb)[i]
    {
      if i < |a| {
        assert (a + b)[i] == a[i];
      } else {
        assert (a + b)[i] == b[i - |a|];
      }
    }
    assert Candidates(keys, defaults, a + b) == ca + cb;
    PresentAppend(ca, cb);
  }

  /** Files that are all marked are all kept, in their order. */
  lemma MarkedFilesKeepsMarked(keys: MetadataKeys, defaults: Defaults, files: seq<AdditionalFile>)
    requires forall i :: 0 <= i < |files| ==> IsMarked(keys, defaults, files[i])
    ensures MarkedFiles(keys, defaults, files) == files
  {
    var candidates := Candidates(keys, defaults, files);
    assert forall i :: 0 <= i < |candidates| ==> candidates[i] == Some(files[i]);
    PresentAllSome(candidates);
  }

  // ---------------------------------------------------------------------------------------
  // One configuration per file
  // ---------------------------------------------------------------------------------------

  /** The configuration built for one kept file. */
  function ConfigurationFor(keys: MetadataKeys, defaults: Defaults, f: AdditionalFile): GeneratorConfiguration {
    var o := f.options;
    GeneratorConfiguration(
      f.path,
      GetBooleanOption(o, keys.generateContracts, true),
      GetBooleanOption(o, keys.generateControllers, true),
      GetBooleanOption(o, keys.useRecords, true),
      GetBooleanOption(o, keys.generateValidationAttributes, true),
      GetBooleanOption(o, keys.generateXmlDocumentation, true),
      GetBooleanOption(o, keys.useAsyncControllers, true),
      GetBooleanOption(o, keys.addApiControllerAttribute, true),
      GetStringOption(o, keys.baseNamespace, defaults.baseNamespace),
      GetStringOption(o, keys.contractsNamespace, defaults.contractsNamespace),
      GetStringOption(o, keys.controllersNamespace, defaults.controllersNamespace),
      GetStringOption(o, keys.controllerBaseClass, defaults.controllerBaseClass),
      ByTag)
  }

  /**
    What the configuration of a file holds: its path; each boolean switched on unless its option
    parses as `false`; each string taken from its option unless that is absent or blank.
  */
  lemma ConfigurationOptions(keys: MetadataKeys, defaults: Defaults, f: AdditionalFile)
    ensures var c := ConfigurationFor(keys, defaults, f);
            c.openApiFile == f.path &&
            (!c.generateContracts <==> SwitchedOff(f.options, keys.generateContracts)) &&
            (!c.generateControllers <==> SwitchedOff(f.options, keys.generateControllers)) &&
            (!c.useRecords <==> SwitchedOff(f.options, keys.useRecords)) &&
            (!c.generateValidationAttributes <==> SwitchedOff(f.options, keys.generateValidationAttributes)) &&
            (!c.generateXmlDocumentation <==> SwitchedOff(f.options, keys.generateXmlDocumentation)) &&
            (!c.useAsyncControllers <==> SwitchedOff(f.options, keys.useAsyncControllers)) &&
            (!c.addApiControllerAttribute <==> SwitchedOff(f.options, keys.addApiControllerAttribute)) &&
            (c.baseNamespace ==
              (if Provided(f.options, keys.baseNamespace) then f.options[keys.baseNamespace] else defaults.baseNamespace)) &&
            (c.contractsNamespace ==
              (if Provided(f.options, keys.contractsNamespace) then f.options[keys.contractsNamespace] else defaults.contractsNamespace)) &&
            (c.controllersNamespace ==
              (if Provided(f.options, keys.controllersNamespace) then f.options[keys.controllersNamespace] else defaults.controllersNamespace)) &&
            (c.controllerBaseClass ==
              (if Provided(f.options, keys.controllerBaseClass) then f.options[keys.controllerBaseClass] else defaults.controllerBaseClass)) &&
            c.controllerGroupingStrategy == ByTag
  {
  }

  /** The eleven option keys the configuration reads. */
  function OptionKeys(keys: MetadataKeys): set<string> {
    {keys.generateContracts, keys.generateControllers, keys.useRecords,
     keys.generateValidationAttributes, keys.generateXmlDocumentation,
     keys.useAsyncControllers, keys.addApiControllerAttribute,
     keys.baseNamespace, keys.contractsNamespace, keys.controllersNamespace, keys.controllerBaseClass}
  }

  /** A file that sets none of the options gets every boolean switched on and every default string. */
  lemma DefaultConfiguration(keys: MetadataKeys, defaults: Defaults, f: AdditionalFile)
    requires forall k :: k in OptionKeys(keys) ==> k !in f.options
    ensures var c := ConfigurationFor(keys, defaults, f);
            c.generateContracts && c.generateControllers && c.useRecords &&
            c.generateValidationAttributes && c.generateXmlDocumentation &&
            c.useAsyncControllers && c.addApiControllerAttribute &&
            c.baseNamespace == defaults.baseNamespace &&
            c.contractsNamespace == defaults.contractsNamespace &&
            c.controllersNamespace == defaults.controllersNamespace &&
            c.controllerBaseClass == defaults.controllerBaseClass
  {
  }

  /** The `foreach` that builds the list: skips null items and adds one configuration per item, in order. */
  method CollectConfigurations(keys: MetadataKeys, defaults: Defaults, items: seq<Option<AdditionalFile>>)
    returns (configurations: seq<GeneratorConfiguration>)
    ensures |configurations| == |Present(items)|
    ensures forall i :: 0 <= i < |configurations| ==>
              configurations[i] == ConfigurationFor(keys, defaults, Present(items)[i])
  {
    var build := f => ConfigurationFor(keys, defaults, f);
    configurations := CollectAll(items, build);
    MapFilesAt(build, Present(items));
  }

  /**
    `Initialize` up to the configuration list: select, drop the null items, build one
    configuration per remaining item. The `Where` and the loop's `continue` drop the same null
    items, so the loop is given the selected items directly.
  */
  method Initialize(keys: MetadataKeys, defaults: Defaults, files: seq<AdditionalFile>)
    returns (configurations: seq<GeneratorConfiguration>)
    ensures |configurations| == |MarkedFiles(keys, defaults, files)|
    ensures forall i :: 0 <= i < |configurations| ==>
              configurations[i] == ConfigurationFor(keys, defaults, MarkedFiles(keys, defaults, files)[i])
  {
    configurations := CollectConfigurations(keys, defaults, Candidates(keys, defaults, files));
  }

  // ---------------------------------------------------------------------------------------
  // Running the generation passes
  // ---------------------------------------------------------------------------------------

  /** How the foreign calls behave for one configuration: what loading does, and the message a pass throws, if it throws. */
  datatype Environment = Environment(load: Load, contractsThrow: Option<string>, controllersThrow: Option<string>)

  datatype Pass = ContractsPass(file: string) | ControllersPass(file: string)

  /** `GenerationError` (TEKX0001) and `InvalidDocument` (TEKX0002), with their message arguments. */
  datatype Diagnostic = GenerationError(file: string, message: string) | InvalidDocument(file: string)

  /** What a run leaves in the source production context: a completed pass or a reported diagnostic. */
  datatype Event = Generated(pass: Pass) | Reported(diagnostic: Diagnostic)

  /** The events of one `GenerateFromConfiguration` call, and the message of the exception it ends with, if any. */
  datatype Run = Run(events: seq<Event>, thrown: Option<string>)

  /** The document loaded without throwing and was not rejected. */
  predicate DocumentReady(env: Environment) {
    env.load.Loaded? && !IsInvalid(env.load.result)
  }

  /** The contracts pass is started: the document is ready, the option is on and the document has schemas. */
  predicate ContractsStarted(c: GeneratorConfiguration, env: Environment) {
    DocumentReady(env) && c.generateContracts && env.load.result.document.value.hasSchemas
  }

  /** The controllers pass is started: the document is ready, the option is on and the contracts pass did not throw. */
  predicate ControllersStarted(c: GeneratorConfiguration, env: Environment) {
    DocumentReady(env) && c.generateControllers &&
    !(ContractsStarted(c, env) && env.contractsThrow.Some?)
  }

  /** One configuration: load the document, reject it, or run the contracts and controllers passes. */
  function GenerateFromConfiguration(c: GeneratorConfiguration, env: Environment): (r: Run)
    ensures env.load.LoadThrew? ==> r == Run([], Some(env.load.message))
    ensures env.load.Loaded? && IsInvalid(env.load.result) ==>
              r == Run([Reported(InvalidDocument(c.openApiFile))], None)
    ensures Generated(ContractsPass(c.openApiFile)) in r.events <==>
              ContractsStarted(c, env) && env.contractsThrow.None?
    ensures Generated(ControllersPass(c.openApiFile)) in r.events <==>
              ControllersStarted(c, env) && env.controllersThrow.None?
    ensures r.thrown.Some? <==>
              env.load.LoadThrew? ||
              (ContractsStarted(c, env) && env.contractsThrow.Some?) ||
              (ControllersStarted(c, env) && env.controllersThrow.Some?)
    ensures ContractsStarted(c, env) && env.contractsThrow.Some? ==> r.thrown == env.contractsThrow
    ensures ControllersStarted(c, env) && env.controllersThrow.Some? ==> r.thrown == env.controllersThrow
    ensures DocumentReady(env) ==>
              r.events ==
                (if ContractsStarted(c, env) && env.contractsThrow.None? then [Generated(ContractsPass(c.openApiFile))] else []) +
                (if ControllersStarted(c, env) && env.controllersThrow.None?
                 then [Generated(ControllersPass(c.openApiFile))] else [])
    ensures forall e :: e in r.events ==>
              e in [Reported(InvalidDocument(c.openApiFile)),
                    Generated(ContractsPass(c.openApiFile)),
                    Generated(ControllersPass(c.openApiFile))]
  {
    match env.load
    case LoadThrew(message) => Run([], Some(message))
    case Loaded(result) =>
      if result.document.None? || (result.errors.Some? && |result.errors.value| > 0) then
        Run([Reported(InvalidDocument(c.openApiFile))], None)
      else
        var runContracts := c.generateContracts && result.document.value.hasSchemas;
        if runContracts && env.contractsThrow.Some? then Run([], env.contractsThrow)
        else
          var done := if runContracts then [Generated(ContractsPass(c.openApiFile))] else [];
          if !c.generateControllers then Run(done, None)
          else if env.controllersThrow.Some? then Run(done, env.controllersThrow)
          else Run(done + [Generated(ControllersPass(c.openApiFile))], None)
  }

  /** The `try`/`catch` around one configuration: its events, then a `GenerationError` naming its file if it threw. */
  function Guarded(c: GeneratorConfiguration, env: Environment): (events: seq<Event>)
    ensures var r := GenerateFromConfiguration(c, env);
            r.thrown.None? ==> events == r.events
    ensures var r := GenerateFromConfiguration(c, env);
            r.thrown.Some? ==> events == r.events + [Reported(GenerationError(c.openApiFile, r.thrown.value))]
  {
    var r := GenerateFromConfiguration(c, env);
    if r.thrown.Some? then r.events + [Reported(GenerationError(c.openApiFile, r.thrown.value))] else r.events
  }

  /** One configuration inside its `try`/`catch`, as a function of the configuration. */
  function Step(env: GeneratorConfiguration -> Environment): GeneratorConfiguration -> seq<Event> {
    c => Guarded(c, env(c))
  }

  /** The events of running every configuration in order. */
  function RunAll(configurations: seq<GeneratorConfiguration>, env: GeneratorConfiguration -> Environment): seq<Event> {
    FlatMap(Step(env), configurations)
  }

  /** Running one more configuration appends its guarded events. */
  lemma RunAllSnoc(configurations: seq<GeneratorConfiguration>, env: GeneratorConfiguration -> Environment, k: nat)
    requires k < |configurations|
    ensures RunAll(configurations[..k + 1], env) ==
            RunAll(configurations[..k], env) + Guarded(configurations[k], env(configurations[k]))
  {
    FlatMapSnoc(Step(env), configurations, k);
  }

  /** The `RegisterSourceOutput` callback: every configuration in turn, each inside its own `try`/`catch`. */
  method RegisterSourceOutput(configurations: seq<GeneratorConfiguration>, env: GeneratorConfiguration -> Environment)
    returns (events: seq<Event>)
    ensures events == RunAll(configurations, env)
  {
    events := [];
    var k := 0;
    while k < |configurations|
      invariant 0 <= k <= |configurations|
      invariant events == RunAll(configurations[..k], env)
    {
      var configuration := configurations[k];
      RunAllSnoc(configurations, env, k);
      var run := GenerateFromConfiguration(configuration, env(configuration));
      events := events + run.events;
      if run.thrown.Some? {
        events := events + [Reported(GenerationError(configuration.openApiFile, run.thrown.value))];
      }
      k := k + 1;
    }
    assert configurations[..k] == configurations;
  }

  /** An exception in one configuration does not stop the later ones: runs compose by concatenation. */
  lemma RunAllAppend(a: seq<GeneratorConfiguration>, b: seq<GeneratorConfiguration>,
                      env: GeneratorConfiguration -> Environment)
    ensures RunAll(a + b, env) == RunAll(a, env) + RunAll(b, env)
  {
    FlatMapAppend(Step(env), a, b);
  }

  /** The number of `GenerationError` diagnostics among some events. */
  function ErrorCount(events: seq<Event>): (n: nat)
    ensures n <= |events|
  {
    if events == [] then 0
    else (if events[0].Reported? && events[0].diagnostic.GenerationError? then 1 else 0) + ErrorCount(events[1..])
  }

  lemma {:induction false} ErrorCountAppend(a: seq<Event>, b: seq<Event>)
    ensures ErrorCount(a + b) == ErrorCount(a) + ErrorCount(b)
    decreases |a|
  {
    if a == [] {
      assert a + b == b;
    } else {
      assert (a + b)[1..] == a[1..] + b;
      ErrorCountAppend(a[1..], b);
    }
  }

  /** The number of configurations whose `GenerateFromConfiguration` call throws. */
  function FailureCount(configurations: seq<GeneratorConfiguration>, env: GeneratorConfiguration -> Environment): (n: nat)
    ensures n <= |configurations|
  {
    if configurations == [] then 0
    else
      var last := configurations[|configurations| - 1];
      FailureCount(configurations[..|configurations| - 1], env) +
      (if GenerateFromConfiguration(last, env(last)).thrown.Some? then 1 else 0)
  }

  /** Exactly one `GenerationError` per configuration that threw, and none otherwise. */
  lemma {:induction false} OneErrorPerFailure(configurations: seq<GeneratorConfiguration>,
                                              env: GeneratorConfiguration -> Environment)
    ensures ErrorCount(RunAll(configurations, env)) == FailureCount(configurations, env)
    decreases |configurations|
  {
    if configurations != [] {
      var last := configurations[|configurations| - 1];
      var front := configurations[..|configurations| - 1];
      var r := GenerateFromConfiguration(last, env(last));
      OneErrorPerFailure(front, env);
      ErrorCountAppend(RunAll(front, env), Guarded(last, env(last)));
      NoErrorInRun(last, env(last));
      if r.thrown.Some? {
        var g := Reported(GenerationError(last.openApiFile, r.thrown.value));
        ErrorCountAppend(r.events, [g]);
        assert ErrorCount([g]) == 1;
      }
    }
  }

  /** `GenerateFromConfiguration` itself never reports a `GenerationError`. */
  lemma NoErrorInRun(c: GeneratorConfiguration, env: Environment)
    ensures ErrorCount(GenerateFromConfiguration(c, env).events) == 0
  {
    var events := GenerateFromConfiguration(c, env).events;
    NoErrorWithoutGenerationError(events);
  }

  lemma {:induction false} NoErrorWithoutGenerationError(events: seq<Event>)
    requires forall i :: 0 <= i < |events| ==> !(events[i].Reported? && events[i].diagnostic.GenerationError?)
    ensures ErrorCount(events) == 0
    decreases |events|
  {
    if events != [] {
      NoErrorWithoutGenerationError(events[1..]);
    }
  }

  /** Every `GenerationError` names the file of a configuration that threw, and carries that exception's message. */
  lemma {:induction false} ErrorsNameFailedFiles(configurations: seq<GeneratorConfiguration>,
                                                 env: GeneratorConfiguration -> Environment,
                                                 file: string, message: string)
    requires Reported(GenerationError(file, message)) in RunAll(configurations, env)
    ensures exists c :: c in configurations && c.openApiFile == file &&
                        GenerateFromConfiguration(c, env(c)).thrown == Some(message)
    decreases |configurations|
  {
    var last := configurations[|configurations| - 1];
    var front := configurations[..|configurations| - 1];
    var r := GenerateFromConfiguration(last, env(last));
    var e := Reported(GenerationError(file, message));
    if e in RunAll(front, env) {
      ErrorsNameFailedFiles(front, env, file, message);
      var c :| c in front && c.openApiFile == file && GenerateFromConfiguration(c, env(c)).thrown == Some(message);
      assert c in configurations;
    } else {
      assert e in Guarded(last, env(last));
      assert e !in r.events;
      assert last in configurations;
    }
  }

  /** A rejected document yields exactly one `InvalidDocument` naming the file, and no pass. */
  lemma InvalidDocumentReportedOnce(c: GeneratorConfiguration, env: Environment)
    requires env.load.Loaded? && IsInvalid(env.load.result)
    ensures Guarded(c, env) == [Reported(InvalidDocument(c.openApiFile))]
  {
  }
}
