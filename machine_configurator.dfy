/**
 * `MachineConfigurator`: configure every configuration of every project of a machine
 * configuration in order, dispatching on the configuration's kind. A `ConfiguratorException`
 * thrown by an adapter is logged and the batch goes on; a missing or out-of-range kind, and any
 * other exception an adapter throws, end the batch.
 */
module MachineConfigurator {
  import opened Wrappers
  import opened Models
  import opened FileSystem
  import AppSettingsJsonConfigurator
  import IntelliJIdeaConfigurator

  /** The three configurator classes. */
  datatype Adapter = LaunchSettingsJsonAdapter | IntelliJIdeaAdapter | AppSettingsJsonAdapter

  /** The kind an adapter is instantiated for. */
  function KindOf(adapter: Adapter): (k: Kind)
    ensures !k.Undefined?
  {
    match adapter
    case LaunchSettingsJsonAdapter => LaunchSettingsJson
    case IntelliJIdeaAdapter => IntelliJIdeaConfiguration
    case AppSettingsJsonAdapter => AppSettingsJson
  }

  /**
   * `InstantiateConfigurator`: one adapter per named kind; a value outside the enum throws
   * `ArgumentOutOfRangeException`.
   */
  function InstantiateConfigurator(kind: Kind): (r: Result<Adapter, Error>)
    ensures r.Success? <==> !kind.Undefined?
    ensures r.Success? ==> KindOf(r.value) == kind
    ensures r.Failure? ==> r.error == KindOutOfRange(kind.code)
  {
    match kind
    case LaunchSettingsJson => Success(LaunchSettingsJsonAdapter)
    case IntelliJIdeaConfiguration => Success(IntelliJIdeaAdapter)
    case AppSettingsJson => Success(AppSettingsJsonAdapter)
    case Undefined(code) => Failure(KindOutOfRange(code))
  }

  /** Every adapter is the one instantiated for its kind, so the dispatch is onto and one-to-one. */
  lemma InstantiateKindOf(adapter: Adapter)
    ensures InstantiateConfigurator(KindOf(adapter)) == Success(adapter)
  {
  }

  /** `configurator.ConfigureProjectConfigurationAsync(...)` for each adapter. */
  function Dispatch(adapter: Adapter, files: Files, machine: MachineConfiguration, configuration: ProjectConfiguration): (r: Effect)
    ensures r.outcome.Fail? ==> r.files == files
    ensures r.files.Keys == files.Keys
    ensures adapter == LaunchSettingsJsonAdapter ==> r.outcome == Fail(NotImplemented)
  {
    match adapter
    case LaunchSettingsJsonAdapter => Effect(Fail(NotImplemented), files)
    case IntelliJIdeaAdapter => IntelliJIdeaConfigurator.ConfigureEffect(files, machine, configuration)
    case AppSettingsJsonAdapter => AppSettingsJsonConfigurator.ConfigureEffect(files, machine, configuration)
  }

  /**
   * What the batch leaves behind besides the files: an adapter was instantiated, a caught
   * `ConfiguratorException` was logged (with the configuration's name), an adapter was
   * released by the `finally` block.
   */
  datatype Event = Acquired(adapter: Adapter) | Warned(name: Option<string>, reason: Reason) | Released(adapter: Adapter)

  /** The files, the events so far, and whether an exception has escaped. */
  datatype Progress = Progress(files: Files, trace: seq<Event>, outcome: Outcome<Error>)

  /** `ConfigureProjectAsync` for one configuration, starting from `files`. */
  function ProjectStep(files: Files, machine: MachineConfiguration, configuration: ProjectConfiguration): (r: Progress)
    ensures r.outcome.Fail? <==>
              || configuration.kind.None?
              || configuration.kind.value.Undefined?
              || (var e := Dispatch(InstantiateConfigurator(configuration.kind.value).value, files, machine, configuration).outcome;
                  e.Fail? && !e.error.ConfiguratorError?)
    ensures configuration.kind.None? ==> r == Progress(files, [], Fail(ConfiguratorError(MissingKind)))
    ensures r.files.Keys == files.Keys
  {
    if configuration.kind.None? then Progress(files, [], Fail(ConfiguratorError(MissingKind)))
    else match InstantiateConfigurator(configuration.kind.value)
      case Failure(e) => Progress(files, [], Fail(e))
      case Success(adapter) =>
        var effect := Dispatch(adapter, files, machine, configuration);
        match effect.outcome
        case Pass => Progress(effect.files, [Acquired(adapter), Released(adapter)], Pass)
        case Fail(ConfiguratorError(reason)) =>
          Progress(effect.files, [Acquired(adapter), Warned(configuration.name, reason), Released(adapter)], Pass)
        case Fail(e) => Progress(effect.files, [Acquired(adapter), Released(adapter)], Fail(e))
  }

  /** One more configuration: nothing happens once an exception has escaped. */
  function Then(s: Progress, machine: MachineConfiguration, configuration: ProjectConfiguration): (r: Progress)
    ensures s.outcome.Fail? ==> r == s
    ensures s.trace <= r.trace
    ensures r.files.Keys == s.files.Keys
  {
    if s.outcome.Fail? then s
    else
      var t := ProjectStep(s.files, machine, configuration);
      Progress(t.files, s.trace + t.trace, t.outcome)
  }

  /** The configurations in order, from state `s`. */
  function RunFrom(s: Progress, machine: MachineConfiguration, configurations: seq<ProjectConfiguration>): (r: Progress)
    ensures s.trace <= r.trace
    ensures r.files.Keys == s.files.Keys
    decreases |configurations|
  {
    if configurations == [] then s
    else
      var n := |configurations| - 1;
      Then(RunFrom(s, machine, configurations[..n]), machine, configurations[n])
  }

  /** The configurations of the projects, in order; a project whose list is null contributes none. */
  function Flatten(projects: seq<Project>): (r: seq<ProjectConfiguration>)
    ensures forall c :: c in r <==>
              exists i :: 0 <= i < |projects| && projects[i].configurations.Some? && c in projects[i].configurations.value
    decreases |projects|
  {
    if projects == [] then []
    else
      var n := |projects| - 1;
      assert forall i :: 0 <= i < n ==> projects[..n][i] == projects[i];
      Flatten(projects[..n]) + (if projects[n].configurations.Some? then projects[n].configurations.value else [])
  }

  /** `ConfigureMachineAsync`. */
  function ConfigureMachineSpec(files: Files, machine: MachineConfiguration): (r: Progress)
    ensures machine.projects.None? ==> r == Progress(files, [], Fail(ConfiguratorError(NoProjects)))
  {
    if machine.projects.None? then Progress(files, [], Fail(ConfiguratorError(NoProjects)))
    else RunFrom(Progress(files, [], Pass), machine, Flatten(machine.projects.value))
  }

  lemma {:induction false} FlattenConcat(a: seq<Project>, b: seq<Project>)
    ensures Flatten(a + b) == Flatten(a) + Flatten(b)
    decreases |b|
  {
    if b == [] {
      assert a + b == a;
    } else {
      var n := |b| - 1;
      assert (a + b)[..|a + b| - 1] == a + b[..n];
      FlattenConcat(a, b[..n]);
    }
  }

  /** Once an exception has escaped, no later configuration is processed. */
  lemma {:induction false} AbortIsFinal(s: Progress, machine: MachineConfiguration, configurations: seq<ProjectConfiguration>)
    requires s.outcome.Fail?
    ensures RunFrom(s, machine, configurations) == s
    decreases |configurations|
  {
    if configurations != [] {
      AbortIsFinal(s, machine, configurations[..|configurations| - 1]);
    }
  }

  /** Processing `a` then `b` is processing `a + b`. */
  lemma {:induction false} RunConcat(s: Progress, machine: MachineConfiguration, a: seq<ProjectConfiguration>, b: seq<ProjectConfiguration>)
    ensures RunFrom(s, machine, a + b) == RunFrom(RunFrom(s, machine, a), machine, b)
    decreases |b|
  {
    if b == [] {
      assert a + b == a;
    } else {
      var n := |b| - 1;
      assert (a + b)[..|a + b| - 1] == a + b[..n];
      RunConcat(s, machine, a, b[..n]);
    }
  }

  /** An escaped exception ends the batch: whatever comes after is never processed. */
  lemma EscapeEndsBatch(s: Progress, machine: MachineConfiguration, done: seq<ProjectConfiguration>, rest: seq<ProjectConfiguration>)
    requires RunFrom(s, machine, done).outcome.Fail?
    ensures RunFrom(s, machine, done + rest) == RunFrom(s, machine, done)
  {
    RunConcat(s, machine, done, rest);
    AbortIsFinal(RunFrom(s, machine, done), machine, rest);
  }

  /** A project whose configuration list is null is skipped and changes nothing. */
  lemma NullConfigurationsSkipped(before: seq<Project>, after: seq<Project>)
    ensures Flatten(before + [Project(None)] + after) == Flatten(before + after)
  {
    FlattenConcat(before + [Project(None)], after);
    FlattenConcat(before, [Project(None)]);
    assert Flatten([Project(None)]) == [] by {
      assert [Project(None)][..0] == [];
    }
    FlattenConcat(before, after);
  }

  /** A caught `ConfiguratorException` is logged and the batch goes on. */
  lemma CaughtErrorContinues(files: Files, machine: MachineConfiguration, configuration: ProjectConfiguration, adapter: Adapter, reason: Reason)
    requires configuration.kind == Some(KindOf(adapter))
    requires Dispatch(adapter, files, machine, configuration).outcome == Fail(ConfiguratorError(reason))
    ensures var r := ProjectStep(files, machine, configuration);
            r.outcome == Pass && r.files == files && Warned(configuration.name, reason) in r.trace
  {
    InstantiateKindOf(adapter);
  }

  /**
   * The parse comes before the generator: a settings file the parser rejects ends the batch even
   * when the configuration's variable table is null, while the same configuration over a file
   * holding a JSON object only has its generator error logged.
   */
  lemma ParseErrorBeforeGeneratorError(files: Files, machine: MachineConfiguration, configuration: ProjectConfiguration)
    requires configuration.kind == Some(AppSettingsJson) && configuration.environmentVariables.None?
    requires configuration.location.Some? && configuration.name.Some?
    requires AppSettingsJsonConfigurator.SettingsPath(configuration) in files
    ensures var path := AppSettingsJsonConfigurator.SettingsPath(configuration);
            !files[path].JsonFile? ==>
              ProjectStep(files, machine, configuration).outcome == Fail(MalformedFile(path))
    ensures var path := AppSettingsJsonConfigurator.SettingsPath(configuration);
            files[path].JsonFile? && files[path].json.JObject? ==>
              var r := ProjectStep(files, machine, configuration);
              r.outcome == Pass && r.files == files
              && Warned(configuration.name, MissingProjectEnvironmentVariables) in r.trace
  {
    AppSettingsJsonConfigurator.FailureReasons(files, machine, configuration);
  }

  /** The launch-settings adapter throws `NotImplementedException`, which ends the batch. */
  lemma LaunchSettingsAborts(files: Files, machine: MachineConfiguration, configuration: ProjectConfiguration)
    requires configuration.kind == Some(LaunchSettingsJson)
    ensures ProjectStep(files, machine, configuration)
            == Progress(files, [Acquired(LaunchSettingsJsonAdapter), Released(LaunchSettingsJsonAdapter)], Fail(NotImplemented))
  {
  }

  /**
   * Every adapter instantiation is followed by its release, with at most one warning in between
   * and nothing else: each adapter is released exactly once.
   */
  predicate Bracketed(trace: seq<Event>)
    decreases |trace|
  {
    if trace == [] then true
    else if |trace| >= 2 && trace[0].Acquired? && trace[1] == Released(trace[0].adapter) then Bracketed(trace[2..])
    else if |trace| >= 3 && trace[0].Acquired? && trace[1].Warned? && trace[2] == Released(trace[0].adapter) then Bracketed(trace[3..])
    else false
  }

  lemma {:induction false} BracketedConcat(a: seq<Event>, b: seq<Event>)
    requires Bracketed(a) && Bracketed(b)
    ensures Bracketed(a + b)
    decreases |a|
  {
    if a == [] {
      assert a + b == b;
    } else {
      if |a| >= 2 && a[0].Acquired? && a[1] == Released(a[0].adapter) && Bracketed(a[2..]) {
        BracketedConcat(a[2..], b);
        assert (a + b)[0] == a[0] && (a + b)[1] == a[1];
        assert (a + b)[2..] == a[2..] + b;
      } else {
        BracketedConcat(a[3..], b);
        assert (a + b)[0] == a[0] && (a + b)[1] == a[1] && (a + b)[2] == a[2];
        assert (a + b)[3..] == a[3..] + b;
      }
    }
  }

  /** One configuration's events: none, or an instantiation, perhaps a warning, and its release. */
  lemma StepBracketed(files: Files, machine: MachineConfiguration, configuration: ProjectConfiguration)
    ensures Bracketed(ProjectStep(files, machine, configuration).trace)
  {
    var t := ProjectStep(files, machine, configuration).trace;
    if |t| == 2 {
      assert t[2..] == [];
    } else if |t| == 3 {
      assert t[3..] == [];
    }
  }

  /** The events of the whole batch are bracketed, whether it completes or an exception escapes. */
  lemma {:induction false} RunBracketed(s: Progress, machine: MachineConfiguration, configurations: seq<ProjectConfiguration>)
    requires Bracketed(s.trace)
    ensures Bracketed(RunFrom(s, machine, configurations).trace)
    decreases |configurations|
  {
    if configurations != [] {
      var n := |configurations| - 1;
      var before := RunFrom(s, machine, configurations[..n]);
      RunBracketed(s, machine, configurations[..n]);
      if before.outcome.Pass? {
        StepBracketed(before.files, machine, configurations[n]);
        BracketedConcat(before.trace, ProjectStep(before.files, machine, configurations[n]).trace);
      }
    }
  }

  /** Number of instantiations in a trace. */
  function Acquisitions(trace: seq<Event>): nat
    decreases |trace|
  {
    if trace == [] then 0 else (if trace[0].Acquired? then 1 else 0) + Acquisitions(trace[1..])
  }

  /** Number of releases in a trace. */
  function Releases(trace: seq<Event>): nat
    decreases |trace|
  {
    if trace == [] then 0 else (if trace[0].Released? then 1 else 0) + Releases(trace[1..])
  }

  lemma {:induction false} BracketedBalanced(trace: seq<Event>)
    requires Bracketed(trace)
    ensures Acquisitions(trace) == Releases(trace)
    decreases |trace|
  {
    if trace != [] {
      if |trace| >= 2 && trace[0].Acquired? && trace[1] == Released(trace[0].adapter) && Bracketed(trace[2..]) {
        BracketedBalanced(trace[2..]);
        assert trace[1..][1..] == trace[2..];
      } else {
        BracketedBalanced(trace[3..]);
        assert trace[1..][1..][1..] == trace[3..];
      }
    }
  }

  /** `ConfigureMachineAsync` releases every adapter it instantiates, exactly once. */
  lemma MachineReleasesEveryAdapter(files: Files, machine: MachineConfiguration)
    ensures Bracketed(ConfigureMachineSpec(files, machine).trace)
    ensures Acquisitions(ConfigureMachineSpec(files, machine).trace) == Releases(ConfigureMachineSpec(files, machine).trace)
  {
    if machine.projects.Some? {
      RunBracketed(Progress(files, [], Pass), machine, Flatten(machine.projects.value));
    }
    BracketedBalanced(ConfigureMachineSpec(files, machine).trace);
  }

  /**
   * A batch of three configurations: the first fails its location check and is only logged, the
   * second has no kind and ends the batch, so the third is never attempted.
   */
  lemma BatchExample(files: Files, third: ProjectConfiguration)
    ensures var first := ProjectConfiguration(Some(AppSettingsJson), Some("appsettings.json"), None, None, None, None);
            var second := ProjectConfiguration(None, Some("launch"), None, None, None, None);
            var machine := MachineConfiguration(Some([Project(Some([first, second, third]))]), Some([]));
            ConfigureMachineSpec(files, machine)
            == Progress(files,
                        [Acquired(AppSettingsJsonAdapter), Warned(Some("appsettings.json"), MissingLocation), Released(AppSettingsJsonAdapter)],
                        Fail(ConfiguratorError(MissingKind)))
  {
    var first := ProjectConfiguration(Some(AppSettingsJson), Some("appsettings.json"), None, None, None, None);
    var second := ProjectConfiguration(None, Some("launch"), None, None, None, None);
    var projects := [Project(Some([first, second, third]))];
    var machine := MachineConfiguration(Some(projects), Some([]));
    assert projects[..0] == [];
    assert Flatten(projects) == [first, second] + [third];
    var start := Progress(files, [], Pass);
    assert [first, second][..1] == [first];
    assert [first][..0] == [];
    assert RunFrom(start, machine, [first]).trace
           == [Acquired(AppSettingsJsonAdapter), Warned(Some("appsettings.json"), MissingLocation), Released(AppSettingsJsonAdapter)];
    EscapeEndsBatch(start, machine, [first, second], [third]);
  }

  /** `ConfigureProjectAsync` over the mutable file system: returns the events and how it ended. */
  method ConfigureProject(disk: Disk, machine: MachineConfiguration, configuration: ProjectConfiguration)
    returns (events: seq<Event>, outcome: Outcome<Error>)
    modifies disk
    ensures Progress(disk.files, events, outcome) == ProjectStep(old(disk.files), machine, configuration)
  {
    if configuration.kind.None? {
      return [], Fail(ConfiguratorError(MissingKind));
    }
    var instantiated := InstantiateConfigurator(configuration.kind.value);
    if instantiated.Failure? {
      return [], Fail(instantiated.error);
    }
    var configurator := instantiated.value;
    events := [Acquired(configurator)];
    var result: Outcome<Error>;
    match configurator {
      case LaunchSettingsJsonAdapter =>
        result := Fail(NotImplemented);
      case IntelliJIdeaAdapter =>
        result := IntelliJIdeaConfigurator.ConfigureProjectConfiguration(disk, machine, configuration);
      case AppSettingsJsonAdapter =>
        result := AppSettingsJsonConfigurator.ConfigureProjectConfiguration(disk, machine, configuration);
    }
    outcome := Pass;
    if result.Fail? {
      if result.error.ConfiguratorError? {
        events := events + [Warned(configuration.name, result.error.reason)];
      } else {
        outcome := result;
      }
    }
    events := events + [Released(configurator)];
  }

  /** One more configuration at the end. */
  lemma RunSnoc(s: Progress, machine: MachineConfiguration, done: seq<ProjectConfiguration>, next: ProjectConfiguration)
    ensures RunFrom(s, machine, done + [next]) == Then(RunFrom(s, machine, done), machine, next)
  {
    assert (done + [next])[..|done|] == done;
  }

  /** The state after the configurations of `projects[..i]` and the first `j` of `projects[i]`. */
  lemma {:induction false} InnerStep(start: Progress, machine: MachineConfiguration, projects: seq<Project>, i: nat, j: nat)
    requires i < |projects| && projects[i].configurations.Some? && j < |projects[i].configurations.value|
    ensures var cs := projects[i].configurations.value;
            RunFrom(start, machine, Flatten(projects[..i]) + cs[..j + 1])
            == Then(RunFrom(start, machine, Flatten(projects[..i]) + cs[..j]), machine, cs[j])
  {
    var cs := projects[i].configurations.value;
    var prefix := Flatten(projects[..i]) + cs[..j];
    assert Flatten(projects[..i]) + cs[..j + 1] == prefix + [cs[j]];
    RunSnoc(start, machine, prefix, cs[j]);
  }

  /** After the inner loop, the configurations of `projects[..i + 1]` are done. */
  lemma {:induction false} OuterStep(projects: seq<Project>, i: nat)
    requires i < |projects|
    ensures Flatten(projects[..i + 1]) ==
            Flatten(projects[..i]) + (if projects[i].configurations.Some? then projects[i].configurations.value else [])
  {
    assert projects[..i + 1][..i] == projects[..i];
  }

  /** An escape inside project `i` ends the whole batch there. */
  lemma {:induction false} EarlyExit(start: Progress, machine: MachineConfiguration, projects: seq<Project>, i: nat, j: nat)
    requires i < |projects| && projects[i].configurations.Some? && j < |projects[i].configurations.value|
    requires RunFrom(start, machine, Flatten(projects[..i]) + projects[i].configurations.value[..j + 1]).outcome.Fail?
    ensures RunFrom(start, machine, Flatten(projects))
            == RunFrom(start, machine, Flatten(projects[..i]) + projects[i].configurations.value[..j + 1])
  {
    var cs := projects[i].configurations.value;
    var done := Flatten(projects[..i]) + cs[..j + 1];
    FlattenConcat(projects[..i + 1], projects[i + 1..]);
    assert projects[..i + 1] + projects[i + 1..] == projects;
    OuterStep(projects, i);
    assert cs == cs[..j + 1] + cs[j + 1..];
    assert Flatten(projects) == done + (cs[j + 1..] + Flatten(projects[i + 1..]));
    RunConcat(start, machine, done, cs[j + 1..] + Flatten(projects[i + 1..]));
    AbortIsFinal(RunFrom(start, machine, done), machine, cs[j + 1..] + Flatten(projects[i + 1..]));
  }

  /** `ConfigureMachineAsync` over the mutable file system: the nested loops of the source. */
  method ConfigureMachine(disk: Disk, machine: MachineConfiguration) returns (trace: seq<Event>, outcome: Outcome<Error>)
    modifies disk
    ensures Progress(disk.files, trace, outcome) == ConfigureMachineSpec(old(disk.files), machine)
  {
    if machine.projects.None? {
      return [], Fail(ConfiguratorError(NoProjects));
    }
    var projects := machine.projects.value;
    ghost var start := Progress(disk.files, [], Pass);
    trace := [];
    for i := 0 to |projects|
      invariant Progress(disk.files, trace, Pass) == RunFrom(start, machine, Flatten(projects[..i]))
    {
      OuterStep(projects, i);
      if projects[i].configurations.Some? {
        var configurations := projects[i].configurations.value;
        assert Flatten(projects[..i]) + configurations[..0] == Flatten(projects[..i]);
        for j := 0 to |configurations|
          invariant Progress(disk.files, trace, Pass) == RunFrom(start, machine, Flatten(projects[..i]) + configurations[..j])
        {
          InnerStep(start, machine, projects, i, j);
          var events, result := ConfigureProject(disk, machine, configurations[j]);
          trace := trace + events;
          if result.Fail? {
            EarlyExit(start, machine, projects, i, j);
            return trace, result;
          }
        }
        assert configurations[..|configurations|] == configurations;
        assert Flatten(projects[..i + 1]) == Flatten(projects[..i]) + configurations;
      } else {
        assert Flatten(projects[..i]) + [] == Flatten(projects[..i]);
      }
    }
    assert projects[..|projects|] == projects;
    outcome := Pass;
  }
}
