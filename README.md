# ProjectConfigurator in Dafny

ProjectConfigurator writes machine-specific environment variables into the configuration files of
development projects. A machine configuration lists projects, and each project has configurations
of three kinds: an application-settings JSON file, a JetBrains workspace file
(`.idea/.idea.<project>/.idea/workspace.xml`) and a launch-settings JSON file. For each configuration
the environment-variable generator takes the configuration's variable table. It drops entries
whose name or value is null. Then, for each machine variable in table order, one `string.Replace`
pass replaces the leftmost non-overlapping occurrences of `$NAME$` with the variable's value, or
deletes them when the value is null. So not every token is replaced:

- of two overlapping tokens only the first is replaced (`$A$A$` with A=`v` gives `vA$`);
- a token that a replacement introduces for a variable whose pass has already run stays.

The configurator for the kind then writes the result into the file:

- top-level string members of the JSON root object, or
- one `<env name=… value=…/>` element per variable inside the `envs` element of a named run
  configuration.

The machine configurator runs all configurations in order. A `ConfiguratorException` thrown by an
adapter is logged and the batch carries on. The batch ends on:

- a configuration with no kind, whose `ConfiguratorException` is thrown outside the `try`;
- a kind outside the enum;
- any other exception an adapter throws.

The model has one module per source unit:

| file | module | models |
|---|---|---|
| `wrappers.dfy` | `Wrappers` | `Option`, `Result`, `Outcome` (returned normally, or the exception thrown) |
| `dictionaries.dfy` | `Dictionaries` | insertion-ordered dictionaries with distinct keys (`Dictionary<K, V>`, `Dictionary.Add`) |
| `models.dfy` | `Models` | the configuration tree (every nullable property is an `Option`) and the exceptions |
| `paths.dfy` | `Paths` | `Path.Combine` with Unix rules, and the workspace-file path |
| `json.dfy` | `Json` | JSON values and the `JsonObject` indexer assignment, as a class |
| `xml.dfy` | `Xml` | XML element trees, and `XmlDocument` with `AppendChild`/`RemoveAll`, as a class |
| `file_system.dfy` | `FileSystem` | the files as a map from path to parsed content, the `Disk` class, `Effect` |
| `generator.dfy` | `ProjectEnvironmentVariableGenerator` | `Generate` and `string.Replace` |
| `app_settings_json.dfy` | `AppSettingsJsonConfigurator` | the JSON settings patcher |
| `intellij_idea.dfy` | `IntelliJIdeaConfigurator` | the workspace XML patcher |
| `machine_configurator.dfy` | `MachineConfigurator` | dispatch by kind, error isolation, the batch loops |

Each configurator is modelled twice:

- a pure function `ConfigureEffect(files, machine, configuration)`, which gives the outcome and the
  files afterwards;
- an imperative method that follows the source step by step. It mutates a `Disk` and an in-memory
  `JsonObjectNode` or `XmlDocument`, and it is proved to produce exactly that effect.

The properties are lemmas about the pure functions. The same pattern gives
`MachineConfigurator.ConfigureMachineSpec` and the method `MachineConfigurator.ConfigureMachine`.
The batch also records a trace of events:

- an adapter instantiated;
- a caught `ConfiguratorException` logged;
- the adapter released by the `finally` block.

The trace is used to state the disposal property.

The code has no project-level variable layer: the generator reads only the configuration's own
table (`ProjectConfigurator/Generators/ProjectEnvironmentVariableGenerator.cs:42`). The
launch-settings adapter does not rewrite a `profiles` entry either: it throws
`NotImplementedException`. `AppSettingsJsonConfigurator.cs:74`
calls `Generate` with a `Project` argument that the generator's two-parameter signature does not
take. The model uses the two-parameter form everywhere. In the same way,
`MachineConfigurator.cs:66` passes the `Project` to every adapter, but the IntelliJ and
launch-settings adapters' methods (`IntelliJIdeaConfigurator.cs:33-35`,
`LaunchSettingsJsonConfigurator.cs:28-29`) take no such parameter. No adapter reads the project, so
`Dispatch` does not pass it.

## Model

| member | source | states |
|---|---|---|
| Dictionaries.Add | ProjectConfigurator/Generators/ProjectEnvironmentVariableGenerator.cs:58 | `Dictionary.Add` of a new key: the keys grow by exactly that key, earlier entries keep their order, and the new entry comes last |
| Paths.Combine | ProjectConfigurator/Configurators/AppSettingsJsonConfigurator.cs:51 | combining with an empty part gives the first part; a relative part after a name not ending in `/` is joined with exactly one `/` |
| Paths.CombineRelative | ProjectConfigurator/Configurators/AppSettingsJsonConfigurator.cs:51 | a non-empty relative name is appended to the location, after a `/` unless the location is empty or already ends in one |
| Paths.WorkspacePath | ProjectConfigurator/Configurators/IntelliJIdeaConfigurator.cs:42-43 | whatever the location and project name, the workspace path ends in `/.idea/workspace.xml` |
| Paths.WorkspacePathShape | ProjectConfigurator/Configurators/IntelliJIdeaConfigurator.cs:42-43 | for a project name that does not end in `/`, the four nested combines give the location followed by `.idea/.idea.<projectName>/.idea/workspace.xml` |
| Paths.TrailingSeparatorCollapses | ProjectConfigurator/Configurators/IntelliJIdeaConfigurator.cs:42-43 | a project name ending in `/` gets no separator after it, so `x/` and `x` share one workspace file |
| Paths.WorkspacePathInjective | ProjectConfigurator/Configurators/IntelliJIdeaConfigurator.cs:42-43 | for one location, two project names that do not end in `/` and give the same workspace path are equal |
| Json.Put | ProjectConfigurator/Configurators/AppSettingsJsonConfigurator.cs:78 | `rootNode[key] = value`: afterwards the key holds the value, every other key keeps its value, the key set gains only that key, and a new key is appended at the end |
| Json.PutKeepsPositions | ProjectConfigurator/Configurators/AppSettingsJsonConfigurator.cs:78 | an assignment keeps every existing member in its position, and it lengthens the object only for a new key |
| Json.PutKeepsTail | ProjectConfigurator/Configurators/AppSettingsJsonConfigurator.cs:78 | assigning a key held among the first m members leaves the length and every later member unchanged, and the first m members keep their key set |
| Json.PutSame | ProjectConfigurator/Configurators/AppSettingsJsonConfigurator.cs:78 | assigning a member the value it already holds leaves the object unchanged |
| Json.JsonObjectNode.SetItem | ProjectConfigurator/Configurators/AppSettingsJsonConfigurator.cs:78 | the in-place indexer update leaves the object's members as `Put` of the old members |
| Xml.XmlDocument.AppendChild | ProjectConfigurator/Configurators/IntelliJIdeaConfigurator.cs:66-68 | the addressed element gets the child as its new last child; the rest of the tree is rebuilt unchanged around it |
| Xml.XmlDocument.RemoveAll | ProjectConfigurator/Configurators/IntelliJIdeaConfigurator.cs:71 | the addressed element loses all attributes and children and keeps its name |
| FileSystem.Disk.Write | ProjectConfigurator/Configurators/AppSettingsJsonConfigurator.cs:93-98 | truncate-and-rewrite replaces the file's whole content and touches no other file |
| ProjectEnvironmentVariableGenerator.ReplaceAll | ProjectConfigurator/Generators/ProjectEnvironmentVariableGenerator.cs:56 | `string.Replace` returns a value without the token unchanged, and replacing a token by itself changes nothing |
| ProjectEnvironmentVariableGenerator.ReplaceWhole | ProjectConfigurator/Generators/ProjectEnvironmentVariableGenerator.cs:56 | a value that is exactly the token becomes exactly the replacement |
| ProjectEnvironmentVariableGenerator.Pieces | ProjectConfigurator/Generators/ProjectEnvironmentVariableGenerator.cs:56 | the split of a value at the occurrences `Replace` replaces has at least one piece; the first piece is a prefix of the value; no piece contains the token |
| ProjectEnvironmentVariableGenerator.PiecesLeftmost | ProjectConfigurator/Generators/ProjectEnvironmentVariableGenerator.cs:56 | the split is leftmost: the first piece is followed by the token, and no occurrence starts inside a piece that the token follows |
| ProjectEnvironmentVariableGenerator.PiecesUnique | ProjectConfigurator/Generators/ProjectEnvironmentVariableGenerator.cs:56 | the split is unique: any pieces that rejoin to the value, with an occurrence-free last piece and no occurrence starting inside a piece, are the split |
| ProjectEnvironmentVariableGenerator.ReplaceAllIsRejoin | ProjectConfigurator/Generators/ProjectEnvironmentVariableGenerator.cs:56 | `Replace` is the split at leftmost non-overlapping occurrences, rejoined with the replacement (ordinal, left to right, no re-scan) |
| ProjectEnvironmentVariableGenerator.PiecesRejoin | ProjectConfigurator/Generators/ProjectEnvironmentVariableGenerator.cs:56 | rejoining the pieces with the token gives back the original value, so the split loses nothing |
| ProjectEnvironmentVariableGenerator.SubstituteConcat | ProjectConfigurator/Generators/ProjectEnvironmentVariableGenerator.cs:55-56 | the inner loop is a left fold: substituting with table `a + b` is substituting with `a`, then with `b` |
| ProjectEnvironmentVariableGenerator.Substitute | ProjectConfigurator/Generators/ProjectEnvironmentVariableGenerator.cs:53-56 | the inner loop, one `Replace` pass per machine variable in table order: a value with no `$k$` for any machine key `k` comes out unchanged |
| ProjectEnvironmentVariableGenerator.NullValueDeletes | ProjectConfigurator/Generators/ProjectEnvironmentVariableGenerator.cs:56 | a machine variable with a null value (`ReplacementOf`) deletes its placeholder: the pieces around the occurrences are joined with nothing |
| ProjectEnvironmentVariableGenerator.TokenInToken | ProjectConfigurator/Generators/ProjectEnvironmentVariableGenerator.cs:55-56 | `$k$` occurs in `$x$`, for `x` without `$`, only when `k` is `x` |
| ProjectEnvironmentVariableGenerator.UnknownPlaceholderVerbatim | ProjectConfigurator/Generators/ProjectEnvironmentVariableGenerator.cs:55-56 | a value that is exactly a placeholder naming no machine key stays verbatim |
| ProjectEnvironmentVariableGenerator.KnownTokenSwallowsUnknown | ProjectConfigurator/Generators/ProjectEnvironmentVariableGenerator.cs:55-56 | inside a longer value an unknown placeholder need not survive: in `$A$X$` with only A=`v` known, the leftmost `$A$` is replaced and takes the `$` that opened `$X$`, giving `vX$` |
| ProjectEnvironmentVariableGenerator.OverlappingTokenSurvives | ProjectConfigurator/Generators/ProjectEnvironmentVariableGenerator.cs:55-56 | of two overlapping occurrences only the leftmost is replaced: `$A$A$` with A=`v` gives `vA$` |
| ProjectEnvironmentVariableGenerator.SubstitutionChains | ProjectConfigurator/Generators/ProjectEnvironmentVariableGenerator.cs:55-56 | a replacement holding a later key's token is substituted again (`$A$` with A=`$B$`, B=`x` gives `x`) |
| ProjectEnvironmentVariableGenerator.SubstitutionDoesNotRescan | ProjectConfigurator/Generators/ProjectEnvironmentVariableGenerator.cs:55-56 | a replacement holding an earlier key's token is not substituted (B=`x`, A=`$B$` gives `$B$`): the result depends on table order |
| ProjectEnvironmentVariableGenerator.ResolveLength | ProjectConfigurator/Generators/ProjectEnvironmentVariableGenerator.cs:42-58 | the outer loop (`Resolve`) only drops entries: never more results than entries, and one result per entry when no name or value is null |
| ProjectEnvironmentVariableGenerator.ResolveKeys | ProjectConfigurator/Generators/ProjectEnvironmentVariableGenerator.cs:42-58 | a name is in the result exactly when some entry has that name and a non-null value; null names and values are skipped, not errors |
| ProjectEnvironmentVariableGenerator.ResolveDistinct | ProjectConfigurator/Generators/ProjectEnvironmentVariableGenerator.cs:42-58 | the result has distinct names, so `Add` never meets a duplicate |
| ProjectEnvironmentVariableGenerator.ResolveValue | ProjectConfigurator/Generators/ProjectEnvironmentVariableGenerator.cs:53-58 | each kept entry's value in the result is its value after substitution over the whole machine table |
| ProjectEnvironmentVariableGenerator.ResolveConcat | ProjectConfigurator/Generators/ProjectEnvironmentVariableGenerator.cs:42-58 | result entries follow the source order with skipped entries removed: the result for `a + b` is the result for `a` followed by the result for `b` |
| ProjectEnvironmentVariableGenerator.GenerateSpec | ProjectConfigurator/Generators/ProjectEnvironmentVariableGenerator.cs:31-62 | the generator succeeds exactly when both tables are present, and each of its errors is a `ConfiguratorException` |
| ProjectEnvironmentVariableGenerator.Generate | ProjectConfigurator/Generators/ProjectEnvironmentVariableGenerator.cs:31-62 | the two nested loops filling a fresh dictionary compute exactly `GenerateSpec` |
| ProjectEnvironmentVariableGenerator.GenerateChecks | ProjectConfigurator/Generators/ProjectEnvironmentVariableGenerator.cs:34-40 | a null variable table fails first; a null machine table fails even when the variable table is empty; an empty table with a machine table gives an empty result |
| ProjectEnvironmentVariableGenerator.GenerateContents | ProjectConfigurator/Generators/ProjectEnvironmentVariableGenerator.cs:42-61 | with both tables present the call succeeds; a name is in the result iff it has a non-null entry, and its value is that entry's substituted value |
| AppSettingsJsonConfigurator.PutAll | ProjectConfigurator/Configurators/AppSettingsJsonConfigurator.cs:76-79 | the assignment loop never removes a member and adds at most one per variable |
| AppSettingsJsonConfigurator.PutAllKeys | ProjectConfigurator/Configurators/AppSettingsJsonConfigurator.cs:76-79 | after the loop the root's keys are the old keys together with the generated keys |
| AppSettingsJsonConfigurator.PutAllWritten | ProjectConfigurator/Configurators/AppSettingsJsonConfigurator.cs:76-79 | every generated key holds its generated string, overwriting any earlier value |
| AppSettingsJsonConfigurator.PutAllFrame | ProjectConfigurator/Configurators/AppSettingsJsonConfigurator.cs:76-79 | a key that is not generated keeps its value, or stays absent |
| AppSettingsJsonConfigurator.PutAllKeepsPositions | ProjectConfigurator/Configurators/AppSettingsJsonConfigurator.cs:76-79 | existing members keep their positions |
| AppSettingsJsonConfigurator.PutAllAppendsNew | ProjectConfigurator/Configurators/AppSettingsJsonConfigurator.cs:76-79 | when no generated key is present yet, the object afterwards is the old members followed by all generated entries as strings, in generator order |
| AppSettingsJsonConfigurator.PutAllAppendsFresh | ProjectConfigurator/Configurators/AppSettingsJsonConfigurator.cs:76-79 | whatever keys are already present, the object afterwards is the old members, updated in place and with the same key set, followed by exactly the generated entries whose key was not present, in generator order, as strings |
| AppSettingsJsonConfigurator.PutAllIdempotent | ProjectConfigurator/Configurators/AppSettingsJsonConfigurator.cs:76-79 | applying the same generated table twice gives the object obtained by applying it once |
| AppSettingsJsonConfigurator.AppendExample | ProjectConfigurator/Configurators/AppSettingsJsonConfigurator.cs:76-79 | `{"X":"y"}` with A=1, B=2 becomes `{"X":"y","A":"1","B":"2"}` |
| AppSettingsJsonConfigurator.FreshMembers | ProjectConfigurator/Configurators/AppSettingsJsonConfigurator.cs:76-79 | the entries appended for new keys are exactly the generated entries whose key the object did not hold |
| AppSettingsJsonConfigurator.PutAllSummary | ProjectConfigurator/Configurators/AppSettingsJsonConfigurator.cs:76-79 | the whole assignment loop: old and generated keys, generated strings, other members untouched, existing members in place, then exactly the new keys in generator order |
| AppSettingsJsonConfigurator.MixedExample | ProjectConfigurator/Configurators/AppSettingsJsonConfigurator.cs:76-79 | `{"A":"0"}` with B=1, A=2, C=3 becomes `{"A":"2","B":"1","C":"3"}`: the old member is updated where it stands and the new ones follow in generator order |
| AppSettingsJsonConfigurator.ConfigureEffect | ProjectConfigurator/Configurators/AppSettingsJsonConfigurator.cs:41-83 | every failure (null location, then null name, missing file, unparsable, null or non-object root, generator failure) leaves every file as it was; no file is created or deleted; success requires location, name, an existing JSON-object file and a successful generator, and touches no other file |
| AppSettingsJsonConfigurator.FailureReasons | ProjectConfigurator/Configurators/AppSettingsJsonConfigurator.cs:41-83 | which exception each failure raises, in the source's order: null location, null name, missing file, unparsable file (not a `ConfiguratorException`), null root, non-object root, and only then a generator error |
| AppSettingsJsonConfigurator.ConfigureProjectConfiguration | ProjectConfigurator/Configurators/AppSettingsJsonConfigurator.cs:38-84 | the step-by-step method (checks, in-place indexer loop on the root object, rewrite) returns and writes exactly what `ConfigureEffect` describes |
| AppSettingsJsonConfigurator.Succeeds | ProjectConfigurator/Configurators/AppSettingsJsonConfigurator.cs:60-83 | for a JSON-object file and a successful generator, the call succeeds; the rewritten object has the old and generated keys, generated strings, untouched other members, existing members in place, and after them exactly the generated keys that were not present, in generator order (the whole object is old members plus generated entries when none was present) |
| AppSettingsJsonConfigurator.ConfigureIdempotent | ProjectConfigurator/Configurators/AppSettingsJsonConfigurator.cs:41-83 | running the configurator again on the files it produced succeeds and changes nothing |
| IntelliJIdeaConfigurator.FirstMatch | ProjectConfigurator/Configurators/IntelliJIdeaConfigurator.cs:62 | the selected child is the first one in document order that the step selects; `None` exactly when no child is selected |
| IntelliJIdeaConfigurator.FirstComponent | ProjectConfigurator/Configurators/IntelliJIdeaConfigurator.cs:54-56 | the first `RunManager` component holding the named configuration; `None` exactly when there is none |
| IntelliJIdeaConfigurator.FindConfiguration | ProjectConfigurator/Configurators/IntelliJIdeaConfigurator.cs:54-58 | `SelectSingleNode` finds a node that `/project/component[@name='RunManager']/configuration[@name=…]` selects, the first in document order; `None` exactly when it selects nothing |
| IntelliJIdeaConfigurator.FindBySelection | ProjectConfigurator/Configurators/IntelliJIdeaConfigurator.cs:54-56 | the search result depends only on which nodes the expression selects |
| IntelliJIdeaConfigurator.EnvNode | ProjectConfigurator/Configurators/IntelliJIdeaConfigurator.cs:77-80 | an `env` element with no children whose `name` attribute is the key and whose `value` attribute is the value |
| IntelliJIdeaConfigurator.EnvNodes | ProjectConfigurator/Configurators/IntelliJIdeaConfigurator.cs:75-83 | one `env` element per variable, in generator order |
| IntelliJIdeaConfigurator.Slotted | ProjectConfigurator/Configurators/IntelliJIdeaConfigurator.cs:62-69 | after the create-if-missing step the configuration has an element at the `envs` index |
| IntelliJIdeaConfigurator.Configured | ProjectConfigurator/Configurators/IntelliJIdeaConfigurator.cs:62-83 | the rewritten configuration keeps its tag and attributes, so the XPath expression still selects it |
| IntelliJIdeaConfigurator.ConfiguredShape | ProjectConfigurator/Configurators/IntelliJIdeaConfigurator.cs:62-83 | the rewritten configuration keeps its tag and attributes; its first `envs` child holds exactly the `env` elements in order; every other child is unchanged; exactly one `envs` is appended, as last child, only when there was none |
| IntelliJIdeaConfigurator.PrepareStep | ProjectConfigurator/Configurators/IntelliJIdeaConfigurator.cs:62-71 | creating `envs` when missing, then `RemoveAll` on it, leaves the configuration with an empty `envs` (attributes stripped too) |
| IntelliJIdeaConfigurator.PrepareEnvs | ProjectConfigurator/Configurators/IntelliJIdeaConfigurator.cs:62-71 | the in-place preparation steps leave the document with the configuration rewritten for no variables |
| IntelliJIdeaConfigurator.AppendStep | ProjectConfigurator/Configurators/IntelliJIdeaConfigurator.cs:75-83 | appending one `env` element to `envs` extends the configuration's variables by one entry |
| IntelliJIdeaConfigurator.FillEnvs | ProjectConfigurator/Configurators/IntelliJIdeaConfigurator.cs:75-83 | the in-place append loop leaves `envs` holding the `env` element of every variable, in order |
| IntelliJIdeaConfigurator.ConfigureEffect | ProjectConfigurator/Configurators/IntelliJIdeaConfigurator.cs:37-85 | every failure leaves every file as it was, because the in-memory edits are saved only at the end; no file is created or deleted |
| IntelliJIdeaConfigurator.Rewritten | ProjectConfigurator/Configurators/IntelliJIdeaConfigurator.cs:54-83 | rewriting the found configuration leaves it the one `SelectSingleNode` finds |
| IntelliJIdeaConfigurator.FailureReasons | ProjectConfigurator/Configurators/IntelliJIdeaConfigurator.cs:37-73 | which exception each failure raises, in the source's order: a missing name or location, missing file, unparsable file (not a `ConfiguratorException`), configuration not found, and only then a generator error |
| IntelliJIdeaConfigurator.ConfigureProjectConfiguration | ProjectConfigurator/Configurators/IntelliJIdeaConfigurator.cs:33-90 | the step-by-step method (checks, `SelectSingleNode`, create/clear `envs`, append loop, save) returns and writes exactly what `ConfigureEffect` describes |
| IntelliJIdeaConfigurator.SucceedsOnlyIf | ProjectConfigurator/Configurators/IntelliJIdeaConfigurator.cs:37-85 | success requires project name, configuration name and location, an existing XML workspace file, a found configuration and a successful generator; only the workspace file changes |
| IntelliJIdeaConfigurator.FindAfterRewrite | ProjectConfigurator/Configurators/IntelliJIdeaConfigurator.cs:54-56 | rewriting the found configuration without changing its tag or attributes leaves it the one the expression finds |
| IntelliJIdeaConfigurator.Succeeds | ProjectConfigurator/Configurators/IntelliJIdeaConfigurator.cs:54-85 | on success the found configuration becomes its rewritten form; every node outside it (other configurations, other components) is unchanged; its ancestors keep tag, attributes and child count |
| IntelliJIdeaConfigurator.ConfiguredTwice | ProjectConfigurator/Configurators/IntelliJIdeaConfigurator.cs:62-83 | rewriting an already rewritten configuration with the same variables changes nothing |
| IntelliJIdeaConfigurator.RewriteTwice | ProjectConfigurator/Configurators/IntelliJIdeaConfigurator.cs:54-85 | the rewritten document is a fixed point of the rewrite |
| IntelliJIdeaConfigurator.ConfigureIdempotent | ProjectConfigurator/Configurators/IntelliJIdeaConfigurator.cs:37-85 | running the configurator again on the files it produced succeeds and changes nothing |
| MachineConfigurator.KindOf | ProjectConfigurator/Configurators/MachineConfigurator.cs:90-100 | every adapter belongs to one of the three named kinds |
| MachineConfigurator.InstantiateConfigurator | ProjectConfigurator/Configurators/MachineConfigurator.cs:90-100 | succeeds exactly for the three named kinds, and the adapter is the one for that kind (so distinct kinds give distinct adapters); any other enum value gives `ArgumentOutOfRangeException` |
| MachineConfigurator.InstantiateKindOf | ProjectConfigurator/Configurators/MachineConfigurator.cs:90-100 | every adapter is the one instantiated for its kind: the dispatch is onto |
| MachineConfigurator.Dispatch | ProjectConfigurator/Configurators/MachineConfigurator.cs:66-67 | a failing adapter leaves the files as they were; no adapter creates or deletes files; the launch-settings adapter always throws `NotImplementedException` |
| MachineConfigurator.ProjectStep | ProjectConfigurator/Configurators/MachineConfigurator.cs:52-88 | an exception escapes exactly when the kind is null, out of range, or the adapter throws something other than a `ConfiguratorException`; a null kind throws before any adapter exists and changes nothing |
| MachineConfigurator.Then | ProjectConfigurator/Configurators/MachineConfigurator.cs:44-47 | one more configuration: nothing happens once an exception has escaped, events are only appended, no file is created or deleted |
| MachineConfigurator.RunFrom | ProjectConfigurator/Configurators/MachineConfigurator.cs:40-48 | running configurations in order only appends events and never creates or deletes a file |
| MachineConfigurator.Flatten | ProjectConfigurator/Configurators/MachineConfigurator.cs:40-48 | the batch's configurations are exactly those of the projects whose configuration list is not null |
| MachineConfigurator.ConfigureMachineSpec | ProjectConfigurator/Configurators/MachineConfigurator.cs:35-38 | a null project list fails before any configuration is processed, with no events and no file changed |
| MachineConfigurator.FlattenConcat | ProjectConfigurator/Configurators/MachineConfigurator.cs:40-48 | projects are processed in list order: the configurations of `a + b` are those of `a`, then those of `b` |
| MachineConfigurator.NullConfigurationsSkipped | ProjectConfigurator/Configurators/MachineConfigurator.cs:42 | a project with a null configuration list contributes nothing |
| MachineConfigurator.RunConcat | ProjectConfigurator/Configurators/MachineConfigurator.cs:40-48 | configurations are processed one at a time: running `a + b` is running `a`, then `b` from the state `a` left |
| MachineConfigurator.AbortIsFinal | ProjectConfigurator/Configurators/MachineConfigurator.cs:40-48 | once an exception has escaped, no later configuration is processed |
| MachineConfigurator.EscapeEndsBatch | ProjectConfigurator/Configurators/MachineConfigurator.cs:40-48 | an escape after configurations `done` makes the batch's result the result after `done`, whatever follows |
| MachineConfigurator.CaughtErrorContinues | ProjectConfigurator/Configurators/MachineConfigurator.cs:64-73 | a `ConfiguratorException` from an adapter is logged with the configuration's name, and the batch goes on |
| MachineConfigurator.ParseErrorBeforeGeneratorError | ProjectConfigurator/Configurators/MachineConfigurator.cs:64-73 | an unparsable settings file ends the batch even when the variable table is null, while over a JSON-object file the same configuration's generator error is only logged |
| MachineConfigurator.LaunchSettingsAborts | ProjectConfigurator/Configurators/LaunchSettingsJsonConfigurator.cs:28-32 | a launch-settings configuration instantiates and releases its adapter, changes no file and ends the batch with `NotImplementedException` |
| MachineConfigurator.StepBracketed | ProjectConfigurator/Configurators/MachineConfigurator.cs:60-87 | one configuration's events are nothing, or an instantiation followed by its release, with at most a warning between |
| MachineConfigurator.BracketedConcat | ProjectConfigurator/Configurators/MachineConfigurator.cs:74-87 | bracketed event sequences stay bracketed when concatenated |
| MachineConfigurator.RunBracketed | ProjectConfigurator/Configurators/MachineConfigurator.cs:40-87 | the events of any run of configurations are bracketed, whether it completes or an exception escapes |
| MachineConfigurator.BracketedBalanced | ProjectConfigurator/Configurators/MachineConfigurator.cs:74-87 | in a bracketed trace, instantiations and releases are equal in number |
| MachineConfigurator.MachineReleasesEveryAdapter | ProjectConfigurator/Configurators/MachineConfigurator.cs:74-87 | every adapter `ConfigureMachineAsync` instantiates is released exactly once, right after its call, whatever the call did |
| MachineConfigurator.BatchExample | ProjectConfigurator/Configurators/MachineConfigurator.cs:40-73 | a caught location error is logged and the batch goes on; the next configuration's null kind ends it, and the third is never attempted |
| MachineConfigurator.ConfigureProject | ProjectConfigurator/Configurators/MachineConfigurator.cs:52-88 | the method with its try/catch/finally structure produces exactly the files, events and outcome of `ProjectStep` |
| MachineConfigurator.ConfigureMachine | ProjectConfigurator/Configurators/MachineConfigurator.cs:32-50 | the nested loops, which stop at the first escaping exception, produce exactly the files, events and outcome of `ConfigureMachineSpec` |

## Left out

- Logging text, `async`/`await`, cancellation tokens and dependency injection are left out. The DI scope opened at `MachineConfigurator.cs:60` is not modelled. Only the logged warning of a caught `ConfiguratorException` appears, as an event.
- None of the three adapters implements `IDisposable` or `IAsyncDisposable`, so the `finally` block at `MachineConfigurator.cs:74-87` disposes nothing. The `Released` event marks where it runs.
- Parsing and serialisation are not modelled: `JsonNode.Parse`, `XmlDocument.Load`/`Save`, indentation and attribute quoting. A file is modelled by what the parser makes of it. A file the parser rejects is `OtherFile`. Reading it raises `MalformedFile`, which stands for `JsonException`/`XmlException`. Those are not `ConfiguratorException`s, so they end the batch.
- The XPath engine is modelled only for the one expression the source uses. A configuration name containing `'` makes the interpolated XPath malformed, and that case is not modelled.
- Paths.Combine: Unix rules only (a part starting with `/` is rooted). Windows drive letters and `\` separators are not modelled.
- A null element inside the project list or inside a configuration list throws `NullReferenceException` in the source. The model's lists have no null elements.
- The generator tests `key == null` (`ProjectEnvironmentVariableGenerator.cs:44`). A .NET `Dictionary` cannot hold a null key, but the model keeps the test by giving the variable table `Option` keys.
- File-system failures other than a missing file are not modelled: permissions, I/O errors, and the file changing between `File.Exists` and the read.
- `ProjectConfigurator/Program.cs` and `ProjectConfigurator/Readers/MachineConfigurationReader.cs` are not part of this model: host start-up, reading the machine configuration file and `--license`. The machine configuration is a given value.
- The launch-settings adapter is modelled only as the `NotImplementedException` it throws. No `profiles` rewrite is modelled, because the code has none.
