/**
 * The machine configuration tree the configurators receive, and the failures they raise.
 * Every reference-typed property of the source's model classes is nullable, so each is an `Option`.
 */
module Models {
  import opened Wrappers
  import opened Dictionaries

  /**
   * `ProjectConfigurationKind`. A C# enum variable can hold any integer of the underlying type,
   * so a value that names none of the three members is `Undefined(code)`. A variable holding a
   * member's own number is that member, never `Undefined`: `code` is always a number outside the
   * three members' values, so each C# value has exactly one representation here. The enum's
   * declaration is not part of this model, so those values are not spelled out.
   */
  datatype Kind = LaunchSettingsJson | IntelliJIdeaConfiguration | AppSettingsJson | Undefined(code: int)

  /** Variables declared by a project configuration: a dictionary whose keys and values may be null. */
  type ProjectVariables = Dictionary<Option<string>, Option<string>>

  /** Machine placeholder names and their replacement texts (a replacement may be null). */
  type MachineVariables = Dictionary<string, Option<string>>

  datatype ProjectConfiguration = ProjectConfiguration(
    kind: Option<Kind>,
    name: Option<string>,
    location: Option<string>,
    projectName: Option<string>,
    configurationName: Option<string>,
    environmentVariables: Option<ProjectVariables>)

  datatype Project = Project(configurations: Option<seq<ProjectConfiguration>>)

  datatype MachineConfiguration = MachineConfiguration(
    projects: Option<seq<Project>>,
    configurationVariables: Option<MachineVariables>)

  /** Why a `ConfiguratorException` was thrown. */
  datatype Reason =
    | MissingProjectEnvironmentVariables
    | MissingMachineConfigurationVariables
    | MissingLocation
    | MissingName
    | FileNotFound(path: string)
    | RootNotParsed(path: string)
    | RootNotObject(path: string)
    | MissingProjectConfigurationData
    | ConfigurationNotFound(configurationName: string, projectName: string)
    | MissingKind
    | NoProjects

  /** An exception. Only `ConfiguratorError` is a `ConfiguratorException`. */
  datatype Error =
    | ConfiguratorError(reason: Reason)
    | NotImplemented          // NotImplementedException
    | MalformedFile(path: string) // JsonException or XmlException from the parsers
    | KindOutOfRange(code: int)   // ArgumentOutOfRangeException
}
