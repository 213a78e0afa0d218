/** `runHeadless`: flag checks, program creation, config intake, binding of
    configured paths to source files, longest-first ordering, rule
    resolution, and the frames the run leaves on standard output. The
    program host, the JSON decoder, the rule registry and the linter are
    inputs. */
module Headless {
  import opened Wrappers
  import opened Bytes
  import opened Framing
  import opened RuleTypes
  import opened Wire
  import opened SizeOrder

  /** `headlessConfigForFile` and `headlessConfig`, the stdin document. */
  datatype HeadlessConfigForFile = HeadlessConfigForFile(filePath: string, rules: seq<string>)
  datatype HeadlessConfig = HeadlessConfig(files: seq<HeadlessConfigForFile>)

  /** The compiled program, seen only through `GetSourceFile`. */
  datatype Program = Program(sourceFiles: map<string, SourceFile>) {
    function GetSourceFile(path: string): Option<SourceFile> {
      if path in sourceFiles then Some(sourceFiles[path]) else None
    }
  }

  /** `linter.ConfiguredRule`: the registry's name for the rule and the rule
      its `Run` delegates to. */
  datatype ConfiguredRule = ConfiguredRule(name: string, rule: Rule)

  /** What `linter.RunLinter` produces: the diagnostics it passes to the
      sink, in the order it passes them, and its returned error. */
  datatype LintRun = LintRun(diagnostics: seq<RuleDiagnostic>, err: Option<string>)

  /** The values of `--tsconfig` and `--cwd` after flag parsing ("" when absent). */
  datatype Flags = Flags(tsconfig: string, cwd: string)

  /** The process inputs: flags and the result of reading all of stdin. */
  datatype Environment = Environment(flags: Flags, stdin: Result<seq<byte>, string>)

  /** The collaborators consulted before the linter runs:
      `tspath.NormalizePath`, `utils.CreateProgram` (given the normalised cwd
      and tsconfig), `json.Unmarshal` into a `headlessConfig`, and the
      registry `allRulesByName`. */
  datatype Host = Host(
    normalizePath: string -> string,
    createProgram: (string, string) -> Result<Program, string>,
    parseConfig: seq<byte> -> Result<HeadlessConfig, string>,
    registry: map<string, Rule>)

  /** `linter.RunLinter`, given the ordered files and each file's rules. */
  type Linter = (seq<SourceFile>, seq<seq<ConfiguredRule>>) -> LintRun

  /** A message written to stdout: an Error payload or a Diagnostic payload. */
  datatype Message = ErrorMessage(error: string) | DiagnosticMessage(diagnostic: HeadlessDiagnostic)

  /** How the run ends: a returned exit code with what went to stderr and
      the messages written to stdout, or a panic. */
  datatype Outcome =
    | Exit(code: int, stderr: string, stdout: seq<Message>)
    | Panic(message: string)

  const TsconfigRequired: string := "--tsconfig is required\n"
  const CwdRequired: string := "--cwd is required\n"

  function NotMatchedMessage(path: string): string {
    "file " + path + " is not matched by tsconfig"
  }

  function UnknownRuleMessage(name: string): string {
    "unknown rule: " + name
  }

  /** `writeErrorMessage(text); return 1`. */
  function Fatal(text: string): (o: Outcome)
    ensures SetupStop(o) && o.Exit? && o.code == 1
    ensures EndsWithOneError(o.stdout) && |o.stdout| == 1 && o.stdout[0].error == text
  {
    Exit(1, "", [ErrorMessage(text)])
  }

  // ---------------------------------------------------------------------
  // Binding configured paths to source files

  /** `files` and `fileConfigs` as the binding loop leaves them. */
  datatype Binding = Binding(files: seq<SourceFile>, fileConfigs: map<SourceFile, HeadlessConfigForFile>)

  predicate Resolves(program: Program, configs: seq<HeadlessConfigForFile>) {
    forall i | 0 <= i < |configs| :: configs[i].filePath in program.sourceFiles
  }

  /** `k` is the first configured entry whose path the program lacks. */
  predicate FirstUnresolved(program: Program, configs: seq<HeadlessConfigForFile>, k: int) {
    && 0 <= k < |configs|
    && configs[k].filePath !in program.sourceFiles
    && forall j | 0 <= j < k :: configs[j].filePath in program.sourceFiles
  }

  /** The binding promised for resolvable configs: `files[i]` is the file of
      `configs[i]`, the map's keys are exactly the bound files, and each
      file maps to the config of its last occurrence. */
  predicate BoundInOrder(program: Program, configs: seq<HeadlessConfigForFile>, b: Binding)
    requires Resolves(program, configs)
  {
    && |b.files| == |configs|
    && (forall i | 0 <= i < |configs| :: b.files[i] == program.sourceFiles[configs[i].filePath])
    && (forall i | 0 <= i < |b.files| :: b.files[i] in b.fileConfigs)
    && (forall f | f in b.fileConfigs :: f in b.files)
    && (forall i | 0 <= i < |b.files| ::
          (forall j | i < j < |b.files| :: b.files[j] != b.files[i]) ==> b.fileConfigs[b.files[i]] == configs[i])
  }

  /** The binding loop: all or nothing. It stops at the first path the
      program does not contain; otherwise every entry is bound in order and
      a later entry for the same file overwrites an earlier one. */
  function Bind(configs: seq<HeadlessConfigForFile>, program: Program): (r: Result<Binding, string>)
    ensures r.Success? <==> Resolves(program, configs)
    ensures r.Success? ==> BoundInOrder(program, configs, r.value)
    ensures r.Failure? ==>
      exists k :: FirstUnresolved(program, configs, k) && r.error == NotMatchedMessage(configs[k].filePath)
    decreases |configs|
  {
    if |configs| == 0 then Success(Binding([], map[]))
    else
      var n := |configs| - 1;
      var prefix := configs[..n];
      var c := configs[n];
      assert forall j | 0 <= j < n :: prefix[j] == configs[j];
      match Bind(prefix, program)
      case Failure(e) =>
        var k :| FirstUnresolved(program, prefix, k) && e == NotMatchedMessage(prefix[k].filePath);
        assert FirstUnresolved(program, configs, k);
        Failure(e)
      case Success(b) =>
        match program.GetSourceFile(c.filePath)
        case None =>
          assert FirstUnresolved(program, configs, n);
          Failure(NotMatchedMessage(c.filePath))
        case Some(file) =>
          BindStep(program, configs, b);
          Success(Binding(b.files + [file], b.fileConfigs[file := c]))
  }

  /** One iteration of the binding loop keeps `BoundInOrder`. */
  lemma BindStep(program: Program, configs: seq<HeadlessConfigForFile>, b: Binding)
    requires |configs| > 0 && Resolves(program, configs)
    requires Resolves(program, configs[..|configs| - 1])
    requires BoundInOrder(program, configs[..|configs| - 1], b)
    ensures
      var c := configs[|configs| - 1];
      var file := program.sourceFiles[c.filePath];
      BoundInOrder(program, configs, Binding(b.files + [file], b.fileConfigs[file := c]))
  {
    var n := |configs| - 1;
    var c := configs[n];
    var file := program.sourceFiles[c.filePath];
    var files := b.files + [file];
    var m := b.fileConfigs[file := c];
    assert forall i | 0 <= i < n :: files[i] == b.files[i] && configs[..n][i] == configs[i];
    LastEntryWins(configs, b.files, b.fileConfigs, file);
    NewKeyIsBound(b.files, b.fileConfigs, file, c);
  }

  /** Adding the newly bound file's map entry keeps the keys among the files. */
  lemma NewKeyIsBound(files: seq<SourceFile>, m: map<SourceFile, HeadlessConfigForFile>,
                      file: SourceFile, c: HeadlessConfigForFile)
    requires forall f | f in m :: f in files
    ensures forall f | f in m[file := c] :: f in files + [file]
  {
    forall f | f in m[file := c]
      ensures f in files + [file]
    {
      if f != file {
        assert f in files;
        var i :| 0 <= i < |files| && files[i] == f;
        assert (files + [file])[i] == f;
      } else {
        assert (files + [file])[|files|] == f;
      }
    }
  }

  /** Overwriting the map entry of the newly bound file leaves each earlier
      file's last-occurrence config in place. */
  lemma LastEntryWins(configs: seq<HeadlessConfigForFile>, files: seq<SourceFile>,
                      m: map<SourceFile, HeadlessConfigForFile>, file: SourceFile)
    requires |configs| == |files| + 1
    requires forall i | 0 <= i < |files| :: files[i] in m
    requires forall i | 0 <= i < |files| ::
      (forall j | i < j < |files| :: files[j] != files[i]) ==> m[files[i]] == configs[i]
    ensures var files' := files + [file];
      var m' := m[file := configs[|files|]];
      forall i | 0 <= i < |files'| ::
        (forall j | i < j < |files'| :: files'[j] != files'[i]) ==> m'[files'[i]] == configs[i]
  {
    var n := |files|;
    var files' := files + [file];
    var m' := m[file := configs[n]];
    forall i | 0 <= i < |files'| && (forall j | i < j < |files'| :: files'[j] != files'[i])
      ensures m'[files'[i]] == configs[i]
    {
      if i < n {
        assert files'[n] != files'[i];
        assert forall j | i < j < n :: files[j] == files'[j];
      }
    }
  }

  // ---------------------------------------------------------------------
  // Resolving rule names against the registry

  /** The resolver callback's loop over one file's rule names: entry `i`
      carries the registry's name for `names[i]`; the first unknown name
      panics, so no partial list is ever returned. */
  function ResolveRules(names: seq<string>, registry: map<string, Rule>): (r: Result<seq<ConfiguredRule>, string>)
    ensures r.Success? <==> forall i | 0 <= i < |names| :: names[i] in registry
    ensures r.Success? ==>
      && |r.value| == |names|
      && forall i | 0 <= i < |names| ::
           r.value[i] == ConfiguredRule(registry[names[i]].name, registry[names[i]])
    ensures r.Failure? ==>
      exists k | 0 <= k < |names| ::
        && names[k] !in registry
        && (forall j | 0 <= j < k :: names[j] in registry)
        && r.error == UnknownRuleMessage(names[k])
  {
    if |names| == 0 then Success([])
    else if names[0] !in registry then Failure(UnknownRuleMessage(names[0]))
    else
      var r := registry[names[0]];
      match ResolveRules(names[1..], registry)
      case Failure(e) =>
        var k :| 0 <= k < |names[1..]| && names[1..][k] !in registry
          && (forall j | 0 <= j < k :: names[1..][j] in registry) && e == UnknownRuleMessage(names[1..][k]);
        assert names[k + 1] !in registry && forall j | 0 <= j < k + 1 :: names[j] in registry;
        Failure(e)
      case Success(rest) =>
        Success([ConfiguredRule(r.name, r)] + rest)
  }

  /** `fileConfigs[sourceFile]`: the zero config when the file has no entry. */
  function ConfigFor(fileConfigs: map<SourceFile, HeadlessConfigForFile>, f: SourceFile): (c: HeadlessConfigForFile)
    ensures f in fileConfigs ==> c == fileConfigs[f]
    ensures f !in fileConfigs ==> c.filePath == "" && c.rules == []
  {
    if f in fileConfigs then fileConfigs[f] else HeadlessConfigForFile("", [])
  }

  /** The rules the resolver callback returns for `f`, or its panic message. */
  function RulesFor(fileConfigs: map<SourceFile, HeadlessConfigForFile>, registry: map<string, Rule>, f: SourceFile): Result<seq<ConfiguredRule>, string> {
    ResolveRules(ConfigFor(fileConfigs, f).rules, registry)
  }

  /** The resolver callback applied to every file the linter is given, in
      order; the first file with an unknown rule name panics. */
  function ResolveAll(files: seq<SourceFile>, fileConfigs: map<SourceFile, HeadlessConfigForFile>,
                      registry: map<string, Rule>): (r: Result<seq<seq<ConfiguredRule>>, string>)
    ensures r.Success? <==> forall i | 0 <= i < |files| :: RulesFor(fileConfigs, registry, files[i]).Success?
    ensures r.Success? ==>
      && |r.value| == |files|
      && forall i | 0 <= i < |files| :: RulesFor(fileConfigs, registry, files[i]) == Success(r.value[i])
    ensures r.Failure? ==>
      exists k | 0 <= k < |files| ::
        && RulesFor(fileConfigs, registry, files[k]) == Failure(r.error)
        && (forall j | 0 <= j < k :: RulesFor(fileConfigs, registry, files[j]).Success?)
  {
    if |files| == 0 then Success([])
    else
      match RulesFor(fileConfigs, registry, files[0])
      case Failure(e) => Failure(e)
      case Success(rules) =>
        match ResolveAll(files[1..], fileConfigs, registry)
        case Failure(e) =>
          assert exists k | 0 <= k < |files| ::
            && RulesFor(fileConfigs, registry, files[k]) == Failure(e)
            && (forall j | 0 <= j < k :: RulesFor(fileConfigs, registry, files[j]).Success?)
          by {
            var k :| 0 <= k < |files[1..]| && RulesFor(fileConfigs, registry, files[1..][k]) == Failure(e)
              && (forall j | 0 <= j < k :: RulesFor(fileConfigs, registry, files[1..][j]).Success?);
            assert RulesFor(fileConfigs, registry, files[k + 1]) == Failure(e);
            assert forall j | 0 <= j < k + 1 :: RulesFor(fileConfigs, registry, files[j]).Success?;
          }
          Failure(e)
        case Success(rest) =>
          Success([rules] + rest)
  }

  // ---------------------------------------------------------------------
  // The run

  /** Everything the setup decides before the linter is called. */
  datatype Plan = Plan(program: Program, config: HeadlessConfig, binding: Binding,
                       files: seq<SourceFile>, rules: seq<seq<ConfiguredRule>>)

  /** `utils.CreateProgram` on the normalised flag values. */
  function CreateProgram(env: Environment, host: Host): Result<Program, string> {
    host.createProgram(host.normalizePath(env.flags.cwd), host.normalizePath(env.flags.tsconfig))
  }

  /** The program depends on the flags only through their normalised
      values: flags that normalise alike create the same program. */
  lemma ProgramFromNormalisedFlags(env: Environment, other: Environment, host: Host)
    requires host.normalizePath(env.flags.cwd) == host.normalizePath(other.flags.cwd)
    requires host.normalizePath(env.flags.tsconfig) == host.normalizePath(other.flags.tsconfig)
    ensures CreateProgram(env, host) == CreateProgram(other, host)
  {
  }

  /** The ways setup can stop the run: a usage error on stderr with nothing
      on stdout, exactly one Error frame, or the resolver's panic. Never a
      Diagnostic frame, and always status 1 when it returns. */
  predicate SetupStop(o: Outcome) {
    || o.Panic?
    || (o.Exit? && o.code == 1 && o.stdout == [] && o.stderr != "")
    || (o.Exit? && o.code == 1 && |o.stdout| == 1 && o.stdout[0].ErrorMessage? && o.stderr == "")
  }

  /** Lines 104-163 and the resolver callback: flags, program, stdin,
      config, binding, ordering, rule resolution. `--tsconfig` is checked
      before `--cwd`. On success the linter is given the bound files, longest
      first, each with the rules of its (last) config. */
  function Setup(env: Environment, host: Host): (r: Result<Plan, Outcome>)
    ensures r.Failure? ==> SetupStop(r.error)
    ensures env.flags.tsconfig == "" ==> r == Failure(Exit(1, TsconfigRequired, []))
    ensures env.flags.tsconfig != "" && env.flags.cwd == "" ==> r == Failure(Exit(1, CwdRequired, []))
    ensures r.Success? ==>
      var p := r.value;
      && env.flags.tsconfig != "" && env.flags.cwd != ""
      && CreateProgram(env, host) == Success(p.program)
      && env.stdin.Success? && host.parseConfig(env.stdin.value) == Success(p.config)
      && Resolves(p.program, p.config.files)
      && BoundInOrder(p.program, p.config.files, p.binding)
      && multiset(p.files) == multiset(p.binding.files)
      && SizeDescending(p.files)
      && |p.rules| == |p.files|
      && forall i | 0 <= i < |p.files| :: RulesFor(p.binding.fileConfigs, host.registry, p.files[i]) == Success(p.rules[i])
  {
    if env.flags.tsconfig == "" then Failure(Exit(1, TsconfigRequired, []))
    else if env.flags.cwd == "" then Failure(Exit(1, CwdRequired, []))
    else
      match CreateProgram(env, host)
      case Failure(e) => Failure(Fatal("error creating TS program: " + e))
      case Success(program) =>
        match env.stdin
        case Failure(e) => Failure(Fatal("error reading from stdin: " + e))
        case Success(raw) =>
          match host.parseConfig(raw)
          case Failure(e) => Failure(Fatal("error parsing config: " + e))
          case Success(config) =>
            match Bind(config.files, program)
            case Failure(e) => Failure(Fatal(e))
            case Success(binding) =>
              var files := SortBySize(binding.files);
              match ResolveAll(files, binding.fileConfigs, host.registry)
              case Failure(e) => Failure(Panic(e))
              case Success(rules) => Success(Plan(program, config, binding, files, rules))
  }

  /** One Diagnostic message per diagnostic the linter reported, in order. */
  function Streamed(ds: seq<RuleDiagnostic>): (ms: seq<Message>)
    ensures |ms| == |ds|
    ensures forall i | 0 <= i < |ds| :: ms[i] == DiagnosticMessage(ToHeadless(ds[i]))
  {
    if |ds| == 0 then [] else [DiagnosticMessage(ToHeadless(ds[0]))] + Streamed(ds[1..])
  }

  /** True when every message but the last is a Diagnostic and the last is an Error. */
  predicate EndsWithOneError(ms: seq<Message>) {
    && |ms| > 0
    && ms[|ms| - 1].ErrorMessage?
    && forall i | 0 <= i < |ms| - 1 :: ms[i].DiagnosticMessage?
  }

  /** Lines 208-244 in sequence: the linter runs over the planned files,
      each reported diagnostic becomes one Diagnostic message in report
      order, and a linter error adds one final Error message and status 1. */
  function Lint(p: Plan, linter: Linter): (o: Outcome)
    ensures
      var run := linter(p.files, p.rules);
      && o.Exit?
      && o.stderr == ""
      && (o.code == 0 <==> run.err.None?)
      && (o.code == 0 || o.code == 1)
      && |run.diagnostics| <= |o.stdout|
      && o.stdout[..|run.diagnostics|] == Streamed(run.diagnostics)
      && (o.code == 0 ==> |o.stdout| == |run.diagnostics|)
      && (o.code == 1 ==> EndsWithOneError(o.stdout) && |o.stdout| == |run.diagnostics| + 1)
      && (run.err.Some? ==> o.stdout[|run.diagnostics|] == ErrorMessage("error running linter: " + run.err.value))
  {
    var run := linter(p.files, p.rules);
    var streamed := Streamed(run.diagnostics);
    match run.err
    case Some(e) =>
      var out := streamed + [ErrorMessage("error running linter: " + e)];
      assert out[..|run.diagnostics|] == streamed;
      Exit(1, "", out)
    case None =>
      assert streamed[..|run.diagnostics|] == streamed;
      Exit(0, "", streamed)
  }

  /** `runHeadless` as a function of its inputs. The linter is consulted only
      once setup has succeeded. A returned status is 0 or 1; status 0 leaves
      only Diagnostic frames, status 1 leaves either a stderr message and no
      frame or a single Error frame after any Diagnostic frames. */
  function RunHeadless(env: Environment, host: Host, linter: Linter): (o: Outcome)
    ensures Setup(env, host).Failure? ==> o == Setup(env, host).error
    ensures Setup(env, host).Success? ==> o == Lint(Setup(env, host).value, linter)
    ensures o.Exit? ==> (o.code == 0 || o.code == 1) && StatusShape(o)
    ensures o.Exit? && o.code == 0 ==> o.stderr == ""
    ensures o.Exit? && o.code == 1 ==> (o.stdout == []) == (o.stderr != "")
  {
    match Setup(env, host)
    case Failure(stop) =>
      assert SetupStop(stop);
      stop
    case Success(p) =>
      Lint(p, linter)
  }

  /** Lines 114-130: once both flags are given, the run depends on them only
      through their normalised values, so two invocations whose flags
      normalise alike and that read the same stdin behave the same. */
  lemma RunFromNormalisedFlags(env: Environment, other: Environment, host: Host, linter: Linter)
    requires env.flags.tsconfig != "" && env.flags.cwd != ""
    requires other.flags.tsconfig != "" && other.flags.cwd != ""
    requires host.normalizePath(env.flags.cwd) == host.normalizePath(other.flags.cwd)
    requires host.normalizePath(env.flags.tsconfig) == host.normalizePath(other.flags.tsconfig)
    requires env.stdin == other.stdin
    ensures RunHeadless(env, host, linter) == RunHeadless(other, host, linter)
  {
    ProgramFromNormalisedFlags(env, other, host);
  }

  // ---------------------------------------------------------------------
  // Properties of the run

  /** Program creation, stdin and config parsing failures each leave exactly
      one Error frame and status 1. */
  lemma SetupFailuresEmitOneErrorFrame(env: Environment, host: Host, linter: Linter)
    requires env.flags.tsconfig != "" && env.flags.cwd != ""
    ensures CreateProgram(env, host).Failure? ==>
      RunHeadless(env, host, linter) == Fatal("error creating TS program: " + CreateProgram(env, host).error)
    ensures CreateProgram(env, host).Success? && env.stdin.Failure? ==>
      RunHeadless(env, host, linter) == Fatal("error reading from stdin: " + env.stdin.error)
    ensures CreateProgram(env, host).Success? && env.stdin.Success? && host.parseConfig(env.stdin.value).Failure? ==>
      RunHeadless(env, host, linter) == Fatal("error parsing config: " + host.parseConfig(env.stdin.value).error)
  {
  }

  /** Setup got as far as parsing the config, which names `configs`. */
  predicate ConfigRead(env: Environment, host: Host, program: Program, configs: seq<HeadlessConfigForFile>) {
    && env.flags.tsconfig != "" && env.flags.cwd != ""
    && CreateProgram(env, host) == Success(program)
    && env.stdin.Success?
    && host.parseConfig(env.stdin.value).Success?
    && host.parseConfig(env.stdin.value).value.files == configs
  }

  /** All-or-nothing binding: one unresolved path gives exactly one Error
      frame naming the first such path and status 1, whatever the linter
      would have done, since the linter is never invoked. */
  lemma BindingAllOrNothing(env: Environment, host: Host, linter: Linter, other: Linter,
                            program: Program, configs: seq<HeadlessConfigForFile>)
    requires ConfigRead(env, host, program, configs)
    requires !Resolves(program, configs)
    ensures exists k ::
      && FirstUnresolved(program, configs, k)
      && RunHeadless(env, host, linter) == Fatal(NotMatchedMessage(configs[k].filePath))
    ensures RunHeadless(env, host, linter) == RunHeadless(env, host, other)
  {
    var r := Bind(configs, program);
    var k :| FirstUnresolved(program, configs, k) && r.error == NotMatchedMessage(configs[k].filePath);
    assert RunHeadless(env, host, linter) == Fatal(NotMatchedMessage(configs[k].filePath));
  }

  /** Some file among `files` has a configured rule name the registry lacks. */
  predicate HasUnknownRule(files: seq<SourceFile>, fileConfigs: map<SourceFile, HeadlessConfigForFile>,
                           registry: map<string, Rule>) {
    exists i, j | 0 <= i < |files| && 0 <= j < |ConfigFor(fileConfigs, files[i]).rules| ::
      ConfigFor(fileConfigs, files[i]).rules[j] !in registry
  }

  /** Resolution over any ordering of the bound files fails exactly when one
      of them has an unknown rule name, and then names one such rule. */
  lemma ResolveAllFailsOnUnknownRule(files: seq<SourceFile>, bound: seq<SourceFile>,
                                     fileConfigs: map<SourceFile, HeadlessConfigForFile>,
                                     registry: map<string, Rule>)
    requires multiset(files) == multiset(bound)
    ensures var r := ResolveAll(files, fileConfigs, registry);
      r.Failure? <==> HasUnknownRule(bound, fileConfigs, registry)
    ensures var r := ResolveAll(files, fileConfigs, registry);
      r.Failure? ==> exists name :: name !in registry && r.error == UnknownRuleMessage(name)
  {
    var r := ResolveAll(files, fileConfigs, registry);
    if r.Failure? {
      var k :| 0 <= k < |files| && RulesFor(fileConfigs, registry, files[k]) == Failure(r.error)
        && (forall j | 0 <= j < k :: RulesFor(fileConfigs, registry, files[j]).Success?);
      var names := ConfigFor(fileConfigs, files[k]).rules;
      var j :| 0 <= j < |names| && names[j] !in registry && r.error == UnknownRuleMessage(names[j]);
      assert files[k] in multiset(bound);
      var i :| 0 <= i < |bound| && bound[i] == files[k];
      assert ConfigFor(fileConfigs, bound[i]).rules[j] !in registry;
    } else {
      forall i, j | 0 <= i < |bound| && 0 <= j < |ConfigFor(fileConfigs, bound[i]).rules|
        ensures ConfigFor(fileConfigs, bound[i]).rules[j] in registry
      {
        assert bound[i] in multiset(files);
        var k :| 0 <= k < |files| && files[k] == bound[i];
        assert RulesFor(fileConfigs, registry, files[k]).Success?;
      }
    }
  }

  /** Once the config has been read and every path resolves, setup stops
      only by the resolver's panic. */
  lemma SetupAfterBinding(env: Environment, host: Host, program: Program, configs: seq<HeadlessConfigForFile>)
    requires ConfigRead(env, host, program, configs)
    requires Resolves(program, configs)
    ensures var b := Bind(configs, program).value;
      var r := ResolveAll(SortBySize(b.files), b.fileConfigs, host.registry);
      && (Setup(env, host).Failure? <==> r.Failure?)
      && (r.Failure? ==> Setup(env, host).error == Panic(r.error))
  {
  }

  /** An unknown rule name is fatal exactly when it appears in the config a
      bound file ends up with (the last entry for that file); the run then
      panics with that name instead of returning. */
  lemma UnknownRuleIsFatal(env: Environment, host: Host, linter: Linter,
                           program: Program, configs: seq<HeadlessConfigForFile>)
    requires ConfigRead(env, host, program, configs)
    requires Resolves(program, configs)
    ensures var b := Bind(configs, program).value;
      RunHeadless(env, host, linter).Panic? <==> HasUnknownRule(b.files, b.fileConfigs, host.registry)
    ensures RunHeadless(env, host, linter).Panic? ==>
      exists name :: name !in host.registry && RunHeadless(env, host, linter).message == UnknownRuleMessage(name)
  {
    var b := Bind(configs, program).value;
    SetupAfterBinding(env, host, program, configs);
    ResolveAllFailsOnUnknownRule(SortBySize(b.files), b.files, b.fileConfigs, host.registry);
  }

  /** Two entries naming the same file: the file is bound twice and both
      copies are linted with the rules of the later entry; the earlier
      entry's rules are never consulted. */
  lemma DuplicateEntriesShareLaterConfig(program: Program, configs: seq<HeadlessConfigForFile>,
                                         registry: map<string, Rule>, i: nat, j: nat)
    requires Resolves(program, configs)
    requires i < j < |configs|
    requires program.sourceFiles[configs[i].filePath] == program.sourceFiles[configs[j].filePath]
    requires forall l | j < l < |configs| ::
      program.sourceFiles[configs[l].filePath] != program.sourceFiles[configs[j].filePath]
    ensures
      var b := Bind(configs, program).value;
      && b.files[i] == b.files[j]
      && ConfigFor(b.fileConfigs, b.files[i]) == configs[j]
      && RulesFor(b.fileConfigs, registry, b.files[i]) == ResolveRules(configs[j].rules, registry)
  {
    var b := Bind(configs, program).value;
    assert forall l | j < l < |b.files| :: b.files[l] != b.files[j];
  }

  // ---------------------------------------------------------------------
  // The bytes written to stdout

  function KindOf(m: Message): MessageKind {
    match m
    case ErrorMessage(_) => Error
    case DiagnosticMessage(_) => Diagnostic
  }

  predicate AllPayloadsFit(msgs: seq<Message>, marshal: Message -> Result<seq<byte>, string>) {
    forall i | 0 <= i < |msgs| :: PayloadFits(marshal(msgs[i]))
  }

  /** The messages are written one `writeMessage` call after another to the
      same writer; a message whose payload cannot be serialised is dropped,
      since the callers ignore the returned error. */
  function Render(w: seq<byte>, msgs: seq<Message>, marshal: Message -> Result<seq<byte>, string>): (out: seq<byte>)
    requires AllPayloadsFit(msgs, marshal)
    ensures |w| <= |out| && out[..|w|] == w
    decreases |msgs|
  {
    if |msgs| == 0 then w
    else
      var next := WriteMessage(w, KindOf(msgs[0]), msgs[0], marshal).output;
      var out := Render(next, msgs[1..], marshal);
      assert out[..|w|] == next[..|w|];
      out
  }

  /** A message whose payload cannot be serialised adds no bytes: the stream
      is what the remaining messages alone would produce. */
  lemma RenderDropsUnserialisable(w: seq<byte>, msgs: seq<Message>, marshal: Message -> Result<seq<byte>, string>)
    requires AllPayloadsFit(msgs, marshal)
    requires |msgs| > 0 && marshal(msgs[0]).Failure?
    ensures AllPayloadsFit(msgs[1..], marshal)
    ensures Render(w, msgs, marshal) == Render(w, msgs[1..], marshal)
  {
    assert WriteMessage(w, KindOf(msgs[0]), msgs[0], marshal).output == w;
  }

  /** Every message's payload serialises. */
  predicate AllMarshal(msgs: seq<Message>, marshal: Message -> Result<seq<byte>, string>) {
    forall i | 0 <= i < |msgs| :: marshal(msgs[i]).Success?
  }

  /** The frame each message becomes when its payload serialises. */
  function FramesOf(msgs: seq<Message>, marshal: Message -> Result<seq<byte>, string>): (fs: seq<Frame>)
    requires AllMarshal(msgs, marshal)
  {
    seq(|msgs|, i requires 0 <= i < |msgs| => Frame(KindOf(msgs[i]), marshal(msgs[i]).value))
  }

  /** The frames of all but the first message are the tail of the frames. */
  lemma FramesOfTail(msgs: seq<Message>, marshal: Message -> Result<seq<byte>, string>)
    requires |msgs| > 0
    requires AllPayloadsFit(msgs, marshal)
    requires AllMarshal(msgs, marshal)
    ensures AllFit(FramesOf(msgs, marshal))
    ensures AllPayloadsFit(msgs[1..], marshal) && AllMarshal(msgs[1..], marshal)
    ensures FramesOf(msgs[1..], marshal) == FramesOf(msgs, marshal)[1..]
  {
  }

  /** Writing the first message appends its frame. */
  lemma RenderStep(w: seq<byte>, msgs: seq<Message>, marshal: Message -> Result<seq<byte>, string>)
    requires |msgs| > 0
    requires AllPayloadsFit(msgs, marshal)
    requires AllMarshal(msgs, marshal)
    ensures AllPayloadsFit(msgs[1..], marshal) && AllMarshal(msgs[1..], marshal)
    ensures Fits(Frame(KindOf(msgs[0]), marshal(msgs[0]).value))
    ensures Render(w, msgs, marshal) ==
      Render(w + EncodeFrame(Frame(KindOf(msgs[0]), marshal(msgs[0]).value)), msgs[1..], marshal)
  {
    WriteMessageAppends(w, KindOf(msgs[0]), msgs[0], marshal);
  }

  lemma {:induction false} RenderEncodesFrames(w: seq<byte>, msgs: seq<Message>,
                                               marshal: Message -> Result<seq<byte>, string>)
    requires AllPayloadsFit(msgs, marshal)
    requires AllMarshal(msgs, marshal)
    ensures AllFit(FramesOf(msgs, marshal))
    ensures Render(w, msgs, marshal) == w + EncodeFrames(FramesOf(msgs, marshal))
    decreases |msgs|
  {
    var fs := FramesOf(msgs, marshal);
    if |msgs| == 0 {
      assert fs == [];
    } else {
      FramesOfTail(msgs, marshal);
      var next := w + EncodeFrame(fs[0]);
      assert Render(w, msgs, marshal) == Render(next, msgs[1..], marshal) by {
        RenderStep(w, msgs, marshal);
      }
      assert Render(next, msgs[1..], marshal) == next + EncodeFrames(fs[1..]) by {
        RenderEncodesFrames(next, msgs[1..], marshal);
      }
      assert EncodeFrames(fs) == EncodeFrame(fs[0]) + EncodeFrames(fs[1..]);
    }
  }

  /** A parent that reads stdout frame by frame gets one frame per message,
      in order, with the message's kind and serialised payload. */
  lemma RenderDecodes(msgs: seq<Message>, marshal: Message -> Result<seq<byte>, string>)
    requires AllPayloadsFit(msgs, marshal)
    requires AllMarshal(msgs, marshal)
    ensures DecodeFrames(Render([], msgs, marshal)).Success?
    ensures var fs := DecodeFrames(Render([], msgs, marshal)).value;
      && |fs| == |msgs|
      && forall i | 0 <= i < |msgs| :: fs[i].kind == KindOf(msgs[i]) && fs[i].payload == marshal(msgs[i]).value
  {
    RenderEncodesFrames([], msgs, marshal);
    assert [] + EncodeFrames(FramesOf(msgs, marshal)) == EncodeFrames(FramesOf(msgs, marshal));
    DecodeEncodeFrames(FramesOf(msgs, marshal));
  }

  /** The stdout shape `RunHeadless` promises for a returned status. */
  predicate StatusShape(o: Outcome)
    requires o.Exit?
  {
    && (o.code == 0 ==> forall i | 0 <= i < |o.stdout| :: o.stdout[i].DiagnosticMessage?)
    && (o.code == 1 ==> o.stdout == [] || EndsWithOneError(o.stdout))
  }

  /** The frames decoded from a stdout of that shape show the status. */
  lemma StatusShapeOnWire(o: Outcome, marshal: Message -> Result<seq<byte>, string>)
    requires o.Exit? && StatusShape(o)
    requires forall i | 0 <= i < |o.stdout| :: marshal(o.stdout[i]).Success? && PayloadFits(marshal(o.stdout[i]))
    ensures var fs := DecodeFrames(Render([], o.stdout, marshal));
      && fs.Success? && |fs.value| == |o.stdout|
      && (o.code == 0 ==> forall i | 0 <= i < |fs.value| :: fs.value[i].kind == Diagnostic)
      && (o.code == 1 && |fs.value| > 0 ==>
            && fs.value[|fs.value| - 1].kind == Error
            && forall i | 0 <= i < |fs.value| - 1 :: fs.value[i].kind == Diagnostic)
  {
    RenderDecodes(o.stdout, marshal);
    var fs := DecodeFrames(Render([], o.stdout, marshal)).value;
    assert forall i | 0 <= i < |fs| :: fs[i].kind == KindOf(o.stdout[i]);
    if o.code == 0 {
      assert forall i | 0 <= i < |fs| :: fs[i].kind == Diagnostic by {
        assert forall i | 0 <= i < |o.stdout| :: o.stdout[i].DiagnosticMessage?;
      }
    }
    if o.code == 1 && |fs| > 0 {
      assert EndsWithOneError(o.stdout);
    }
  }

  /** On the wire, a returned status shows in the frames: status 0 means
      every frame is a Diagnostic frame, and status 1 with any frame at all
      means the last frame is the only Error frame. */
  lemma WireShowsExitStatus(env: Environment, host: Host, linter: Linter,
                            marshal: Message -> Result<seq<byte>, string>)
    requires RunHeadless(env, host, linter).Exit?
    requires var o := RunHeadless(env, host, linter);
      forall i | 0 <= i < |o.stdout| :: marshal(o.stdout[i]).Success? && PayloadFits(marshal(o.stdout[i]))
    ensures var o := RunHeadless(env, host, linter);
      var fs := DecodeFrames(Render([], o.stdout, marshal));
      && fs.Success? && |fs.value| == |o.stdout|
      && (o.code == 0 ==> forall i | 0 <= i < |fs.value| :: fs.value[i].kind == Diagnostic)
      && (o.code == 1 && |fs.value| > 0 ==>
            && fs.value[|fs.value| - 1].kind == Error
            && forall i | 0 <= i < |fs.value| - 1 :: fs.value[i].kind == Diagnostic)
  {
    var o := RunHeadless(env, host, linter);
    assert StatusShape(o);
    StatusShapeOnWire(o, marshal);
  }

  /** One configured file `/a.ts` with rule `no-foo`, whose one diagnostic
      covers offsets 3-6: the linter is given exactly that file with that
      rule, and the run returns 0 after one Diagnostic message carrying the
      range, rule, message and path, with no fixes or suggestions. */
  lemma SingleFileScenario()
    ensures
      var a := SourceFile("/a.ts", [102, 102, 102, 102, 111, 111]);
      var message := RuleMessage("no-foo-found", "Unexpected foo");
      var diagnostic := RuleDiagnostic(TextRange(3, 6), "no-foo", message, [], [], a);
      var rule := Rule("no-foo");
      var env := Environment(Flags("tsconfig.json", "/"), Success([]));
      var host := Host(
        p => p,
        (cwd, tsconfig) => Success(Program(map["/a.ts" := a])),
        raw => Success(HeadlessConfig([HeadlessConfigForFile("/a.ts", ["no-foo"])])),
        map["no-foo" := rule]);
      var linter: Linter := (files, rules) =>
        if files == [a] && rules == [[ConfiguredRule("no-foo", rule)]] then LintRun([diagnostic], None)
        else LintRun([], Some("unexpected input"));
      RunHeadless(env, host, linter) == Exit(0, "", [DiagnosticMessage(HeadlessDiagnostic(
        HeadlessRange(3, 6), "no-foo", HeadlessRuleMessage("no-foo-found", "Unexpected foo"), [], [], "/a.ts"))])
  {
    var a := SourceFile("/a.ts", [102, 102, 102, 102, 111, 111]);
    var message := RuleMessage("no-foo-found", "Unexpected foo");
    var diagnostic := RuleDiagnostic(TextRange(3, 6), "no-foo", message, [], [], a);
    var rule := Rule("no-foo");
    var env := Environment(Flags("tsconfig.json", "/"), Success([]));
    var program := Program(map["/a.ts" := a]);
    var cfg := HeadlessConfigForFile("/a.ts", ["no-foo"]);
    var host := Host(
      p => p,
      (cwd, tsconfig) => Success(program),
      raw => Success(HeadlessConfig([cfg])),
      map["no-foo" := rule]);
    var linter: Linter := (files, rules) =>
      if files == [a] && rules == [[ConfiguredRule("no-foo", rule)]] then LintRun([diagnostic], None)
      else LintRun([], Some("unexpected input"));
    var binding := Binding([a], map[a := cfg]);
    var configured := [ConfiguredRule("no-foo", rule)];
    assert CreateProgram(env, host) == Success(program);
    assert Bind([cfg], program) == Success(binding) by {
      assert [cfg][..0] == [];
      assert Bind([], program) == Success(Binding([], map[]));
      assert program.GetSourceFile("/a.ts") == Some(a);
      assert [] + [a] == [a];
      assert map[][a := cfg] == map[a := cfg];
    }
    assert SortBySize([a]) == [a];
    assert RulesFor(binding.fileConfigs, host.registry, a) == Success(configured) by {
      assert ["no-foo"][1..] == [];
      assert ResolveRules([], host.registry) == Success([]);
      assert configured + [] == configured;
    }
    assert ResolveAll([a], binding.fileConfigs, host.registry) == Success([configured]) by {
      assert [a][1..] == [];
      assert ResolveAll([], binding.fileConfigs, host.registry) == Success([]);
      assert [configured] + [] == [configured];
    }
    var plan := Plan(program, HeadlessConfig([cfg]), binding, [a], [configured]);
    assert Setup(env, host) == Success(plan);
    assert Streamed([diagnostic]) == [DiagnosticMessage(ToHeadless(diagnostic))];
  }
}
