/**
 * `IntelliJIdeaConfigurator.ConfigureProjectConfigurationAsync`: find a run configuration in
 * a JetBrains `workspace.xml` and replace its `envs` element by the generated variables.
 */
module IntelliJIdeaConfigurator {
  import opened Wrappers
  import opened Dictionaries
  import opened Models
  import opened Paths
  import opened Xml
  import opened FileSystem
  import opened ProjectEnvironmentVariableGenerator

  /**
   * The XPath step `tag[@name='value']` on one node (`tag` alone when `nameAttribute` is `None`):
   * an element with that tag and, if asked, that `name` attribute.
   */
  predicate Selects(n: XmlNode, tag: string, nameAttribute: Option<string>) {
    n.Element? && n.name == tag && (nameAttribute.Some? ==> Lookup(n.attributes, "name") == nameAttribute)
  }

  /** The first child the step selects, in document order. */
  function FirstMatch(children: seq<XmlNode>, tag: string, nameAttribute: Option<string>): (r: Option<nat>)
    ensures r.Some? ==> r.value < |children| && Selects(children[r.value], tag, nameAttribute)
    ensures r.Some? ==> forall m :: 0 <= m < r.value ==> !Selects(children[m], tag, nameAttribute)
    ensures r.None? ==> forall m :: 0 <= m < |children| ==> !Selects(children[m], tag, nameAttribute)
  {
    if children == [] then None
    else if Selects(children[0], tag, nameAttribute) then Some(0)
    else match FirstMatch(children[1..], tag, nameAttribute)
      case None => None
      case Some(m) => Some(m + 1)
  }

  /** A run-manager component that holds a configuration with the given name. */
  predicate HoldsConfiguration(component: XmlNode, configurationName: string) {
    Selects(component, "component", Some("RunManager")) &&
    FirstMatch(component.children, "configuration", Some(configurationName)).Some?
  }

  /** The first component that holds the configuration. */
  function FirstComponent(components: seq<XmlNode>, configurationName: string): (r: Option<nat>)
    ensures r.Some? ==> r.value < |components| && HoldsConfiguration(components[r.value], configurationName)
    ensures r.Some? ==> forall m :: 0 <= m < r.value ==> !HoldsConfiguration(components[m], configurationName)
    ensures r.None? ==> forall m :: 0 <= m < |components| ==> !HoldsConfiguration(components[m], configurationName)
  {
    if components == [] then None
    else if HoldsConfiguration(components[0], configurationName) then Some(0)
    else match FirstComponent(components[1..], configurationName)
      case None => None
      case Some(m) => Some(m + 1)
  }

  /**
   * The node at `[i, j]` is selected by
   * `/project/component[@name='RunManager']/configuration[@name='configurationName']`.
   */
  predicate IsMatch(root: XmlNode, i: nat, j: nat, configurationName: string) {
    root.Element? && root.name == "project" &&
    At(root, [i]).Some? && Selects(At(root, [i]).value, "component", Some("RunManager")) &&
    At(root, [i, j]).Some? && Selects(At(root, [i, j]).value, "configuration", Some(configurationName))
  }

  lemma {:induction false} AtGrandchild(root: XmlNode, i: nat, j: nat)
    ensures At(root, [i]) == if root.Element? && i < |root.children| then Some(root.children[i]) else None
    ensures At(root, [i, j]) ==
              if root.Element? && i < |root.children| && root.children[i].Element? && j < |root.children[i].children|
              then Some(root.children[i].children[j]) else None
  {
    assert [i][1..] == [];
    assert [i, j][1..] == [j];
    assert [j][1..] == [];
    if root.Element? && i < |root.children| {
      var c := root.children[i];
      assert At(root, [i, j]) == At(c, [j]);
      if c.Element? && j < |c.children| {
        assert At(c, [j]) == At(c.children[j], []);
      }
    }
  }

  /** The search result names a configuration element. */
  lemma FoundConfiguration(root: XmlNode, configurationName: string)
    requires FindConfiguration(root, configurationName).Some?
    ensures var p := FindConfiguration(root, configurationName).value;
            At(root, p).Some? && At(root, p).value.Element?
  {
    var p := FindConfiguration(root, configurationName).value;
    assert p == [p[0], p[1]];
  }

  /**
   * `doc.SelectSingleNode(...)` for the run configuration: the path of the first selected node
   * in document order (lexicographic order on the two child indices), or `None` when no node is selected.
   */
  function FindConfiguration(root: XmlNode, configurationName: string): (r: Option<NodePath>)
    ensures r.Some? ==> |r.value| == 2 && IsMatch(root, r.value[0], r.value[1], configurationName)
    ensures r.Some? ==> forall i: nat, j: nat :: IsMatch(root, i, j, configurationName) ==>
                          r.value[0] < i || (r.value[0] == i && r.value[1] <= j)
    ensures r.None? ==> forall i: nat, j: nat :: !IsMatch(root, i, j, configurationName)
  {
    if !(root.Element? && root.name == "project") then None
    else match FirstComponent(root.children, configurationName)
      case None =>
        assert forall i: nat, j: nat :: !IsMatch(root, i, j, configurationName) by {
          forall i: nat, j: nat ensures !IsMatch(root, i, j, configurationName) {
            AtGrandchild(root, i, j);
          }
        }
        None
      case Some(i) =>
        var j := FirstMatch(root.children[i].children, "configuration", Some(configurationName)).value;
        AtGrandchild(root, i, j);
        assert forall i': nat, j': nat :: IsMatch(root, i', j', configurationName) ==> i < i' || (i == i' && j <= j') by {
          forall i': nat, j': nat | IsMatch(root, i', j', configurationName)
            ensures i < i' || (i == i' && j <= j')
          {
            AtGrandchild(root, i', j');
          }
        }
        Some([i, j])
  }

  /** The search depends only on which nodes the expression selects. */
  lemma FindBySelection(r1: XmlNode, r2: XmlNode, configurationName: string)
    requires forall i: nat, j: nat :: IsMatch(r1, i, j, configurationName) <==> IsMatch(r2, i, j, configurationName)
    ensures FindConfiguration(r1, configurationName) == FindConfiguration(r2, configurationName)
  {
    var f1 := FindConfiguration(r1, configurationName);
    var f2 := FindConfiguration(r2, configurationName);
    if f1.Some? {
      var a := f1.value;
      assert IsMatch(r2, a[0], a[1], configurationName);
      var b := f2.value;
      assert IsMatch(r1, b[0], b[1], configurationName);
      assert a[0] == b[0] && a[1] == b[1];
      assert a == [a[0], a[1]] && b == [b[0], b[1]];
    }
  }

  /** `<env name="key" value="value" />`: `CreateElement("env")`, then the two `SetAttribute` calls. */
  function EnvNode(key: string, value: string): (n: XmlNode)
    ensures n.Element? && n.name == "env" && n.children == []
    ensures Lookup(n.attributes, "name") == Some(key) && Lookup(n.attributes, "value") == Some(value)
  {
    Element("env", [("name", key), ("value", value)], [])
  }

  /** One `env` element per variable, in the generator's order. */
  function EnvNodes(env: seq<(string, string)>): (r: seq<XmlNode>)
    ensures |r| == |env|
    ensures forall i :: 0 <= i < |env| ==> r[i] == EnvNode(env[i].0, env[i].1)
  {
    seq(|env|, i requires 0 <= i < |env| => EnvNode(env[i].0, env[i].1))
  }

  /** Where the configuration's `envs` element is, or is appended when it has none. */
  function EnvsIndex(configuration: XmlNode): nat
    requires configuration.Element?
  {
    match FirstMatch(configuration.children, "envs", None)
    case Some(k) => k
    case None => |configuration.children|
  }

  /** The configuration once it has an `envs` element. */
  function Slotted(configuration: XmlNode): (r: XmlNode)
    requires configuration.Element?
    ensures r.Element? && EnvsIndex(configuration) < |r.children|
  {
    if FirstMatch(configuration.children, "envs", None).Some? then configuration
    else Appended(configuration, Element("envs", [], []))
  }

  /** The configuration with its first `envs` element (appended if missing) holding exactly `env`. */
  function Configured(configuration: XmlNode, env: seq<(string, string)>): (r: XmlNode)
    requires configuration.Element?
    ensures r.Element? && r.name == configuration.name && r.attributes == configuration.attributes
  {
    var s := Slotted(configuration);
    s.(children := s.children[EnvsIndex(configuration) := Element("envs", [], EnvNodes(env))])
  }

  /**
   * The rewritten configuration keeps its name and attributes and every child but one: its first
   * `envs` child, which now holds one `env` per variable and nothing else. An `envs` child is
   * appended only when there was none.
   */
  lemma {:induction false} ConfiguredShape(configuration: XmlNode, env: seq<(string, string)>)
    requires configuration.Element?
    ensures var c := Configured(configuration, env); var k := EnvsIndex(configuration);
            && c.Element? && c.name == configuration.name && c.attributes == configuration.attributes
            && FirstMatch(c.children, "envs", None) == Some(k)
            && c.children[k] == Element("envs", [], EnvNodes(env))
            && |c.children| == |configuration.children| + (if k < |configuration.children| then 0 else 1)
            && forall m :: 0 <= m < |configuration.children| && m != k ==> c.children[m] == configuration.children[m]
  {
    var c := Configured(configuration, env);
    var k := EnvsIndex(configuration);
    var f := FirstMatch(c.children, "envs", None);
    assert Selects(c.children[k], "envs", None);
    forall m | 0 <= m < k ensures !Selects(c.children[m], "envs", None) {
      assert c.children[m] == configuration.children[m];
    }
    assert f == Some(k);
  }

  /** The source's two preparation steps: make sure `envs` exists, then `RemoveAll` on it. */
  lemma {:induction false} PrepareStep(root: XmlNode, p: NodePath, configuration: XmlNode)
    requires At(root, p) == Some(configuration) && configuration.Element?
    ensures var found := FirstMatch(configuration.children, "envs", None);
            var slotted := if found.Some? then root else ReplaceAt(root, p, Appended(configuration, Element("envs", [], [])));
            var q := p + [EnvsIndex(configuration)];
            && slotted == ReplaceAt(root, p, Slotted(configuration))
            && At(slotted, q).Some?
            && ReplaceAt(slotted, q, Cleared(At(slotted, q).value)) == ReplaceAt(root, p, Configured(configuration, []))
  {
    var s := Slotted(configuration);
    var k := EnvsIndex(configuration);
    var slotted := ReplaceAt(root, p, s);
    if FirstMatch(configuration.children, "envs", None).Some? {
      ReplaceBySelf(root, p);
    }
    AtBelow(root, p, s, [k]);
    assert At(s, [k]) == Some(s.children[k]) by {
      assert [k][1..] == [];
    }
    assert s.children[k].Element? && s.children[k].name == "envs";
    ReplaceNested(root, p, s, [k], Cleared(s.children[k]));
    assert ReplaceAt(s, [k], Cleared(s.children[k])) == Configured(configuration, []) by {
      assert [k][1..] == [];
      assert EnvNodes([]) == [];
    }
  }

  /** One pass of the loop: `envsNode.AppendChild(envNode)`. */
  lemma {:induction false} AppendStep(root: XmlNode, p: NodePath, configuration: XmlNode,
                                      env: seq<(string, string)>, entry: (string, string))
    requires At(root, p) == Some(configuration) && configuration.Element?
    ensures var doc := ReplaceAt(root, p, Configured(configuration, env));
            var q := p + [EnvsIndex(configuration)];
            && At(doc, q).Some? && At(doc, q).value.Element?
            && ReplaceAt(doc, q, Appended(At(doc, q).value, EnvNode(entry.0, entry.1)))
               == ReplaceAt(root, p, Configured(configuration, env + [entry]))
  {
    var c := Configured(configuration, env);
    var k := EnvsIndex(configuration);
    var e := c.children[k];
    assert [k][1..] == [];
    AtBelow(root, p, c, [k]);
    assert At(c, [k]) == Some(e);
    var n := EnvNode(entry.0, entry.1);
    ReplaceNested(root, p, c, [k], Appended(e, n));
    assert EnvNodes(env) + [n] == EnvNodes(env + [entry]);
    assert ReplaceAt(c, [k], Appended(e, n)) == Configured(configuration, env + [entry]);
  }

  /** The document with the found configuration rewritten. */
  function Rewritten(root: XmlNode, configurationName: string, env: seq<(string, string)>): (r: XmlNode)
    requires FindConfiguration(root, configurationName).Some?
    ensures FindConfiguration(r, configurationName) == FindConfiguration(root, configurationName)
  {
    FoundConfiguration(root, configurationName);
    var p := FindConfiguration(root, configurationName).value;
    var x := Configured(At(root, p).value, env);
    FindAfterRewrite(root, p, x, configurationName);
    ReplaceAt(root, p, x)
  }

  /**
   * What `ConfigureProjectConfigurationAsync` does to the files. Every failure leaves every file
   * as it was: the source edits the document in memory and saves it only at the end. The
   * generator runs after the configuration has been found, so its failures come last.
   */
  function ConfigureEffect(files: Files, machine: MachineConfiguration, configuration: ProjectConfiguration): (r: Effect)
    ensures r.outcome.Fail? ==> r.files == files
    ensures r.files.Keys == files.Keys
  {
    if configuration.projectName.None? || configuration.configurationName.None? || configuration.location.None? then
      Effect(Fail(ConfiguratorError(MissingProjectConfigurationData)), files)
    else
      var path := WorkspacePath(configuration.location.value, configuration.projectName.value);
      if path !in files then Effect(Fail(ConfiguratorError(FileNotFound(path))), files)
      else if !files[path].XmlFile? then Effect(Fail(MalformedFile(path)), files)
      else
        var root := files[path].document;
        match FindConfiguration(root, configuration.configurationName.value)
        case None =>
          Effect(Fail(ConfiguratorError(ConfigurationNotFound(configuration.configurationName.value,
                                                              configuration.projectName.value))), files)
        case Some(p) =>
          match GenerateSpec(machine, configuration)
          case Failure(e) => Effect(Fail(e), files)
          case Success(env) =>
            Effect(Pass, files[path := XmlFile(Rewritten(root, configuration.configurationName.value, env))])
  }

  /**
   * Which exception a failing call raises, in the order the source checks: the three names, the
   * file's existence, the parse (whose failure is not a `ConfiguratorException`), the lookup of
   * the run configuration, and only then the generator.
   */
  lemma FailureReasons(files: Files, machine: MachineConfiguration, configuration: ProjectConfiguration)
    ensures configuration.projectName.None? || configuration.configurationName.None? || configuration.location.None?
            ==> ConfigureEffect(files, machine, configuration).outcome == Fail(ConfiguratorError(MissingProjectConfigurationData))
    ensures configuration.projectName.Some? && configuration.configurationName.Some? && configuration.location.Some? ==>
            var outcome := ConfigureEffect(files, machine, configuration).outcome;
            var path := WorkspacePath(configuration.location.value, configuration.projectName.value);
            var name := configuration.configurationName.value;
            && (path !in files ==> outcome == Fail(ConfiguratorError(FileNotFound(path))))
            && (path in files && !files[path].XmlFile? ==> outcome == Fail(MalformedFile(path)))
            && (path in files && files[path].XmlFile? && FindConfiguration(files[path].document, name).None? ==>
                  outcome == Fail(ConfiguratorError(ConfigurationNotFound(name, configuration.projectName.value))))
            && (path in files && files[path].XmlFile? && FindConfiguration(files[path].document, name).Some? &&
                GenerateSpec(machine, configuration).Failure? ==>
                  outcome == Fail(GenerateSpec(machine, configuration).error))
  {
  }

  /** The configurator over a mutable file system and a mutable `XmlDocument`. */
  method ConfigureProjectConfiguration(disk: Disk, machine: MachineConfiguration, configuration: ProjectConfiguration)
    returns (outcome: Outcome<Error>)
    modifies disk
    ensures Effect(outcome, disk.files) == ConfigureEffect(old(disk.files), machine, configuration)
  {
    if configuration.projectName.None? || configuration.configurationName.None? || configuration.location.None? {
      return Fail(ConfiguratorError(MissingProjectConfigurationData));
    }
    var path := WorkspacePath(configuration.location.value, configuration.projectName.value);
    if path !in disk.files {
      return Fail(ConfiguratorError(FileNotFound(path)));
    }
    if !disk.files[path].XmlFile? {
      return Fail(MalformedFile(path));
    }
    var doc := new XmlDocument.Load(disk.files[path].document);
    var root := doc.root;
    var found := FindConfiguration(doc.root, configuration.configurationName.value);
    if found.None? {
      return Fail(ConfiguratorError(ConfigurationNotFound(configuration.configurationName.value,
                                                          configuration.projectName.value)));
    }
    var p := found.value;
    FoundConfiguration(root, configuration.configurationName.value);
    var configurationNode := At(doc.root, p).value;
    PrepareEnvs(doc, root, p, configurationNode);
    var generated := Generate(machine, configuration);
    if generated.Failure? {
      return Fail(generated.error);
    }
    FillEnvs(doc, root, p, configurationNode, generated.value);
    disk.Write(path, XmlFile(doc.root));
    return Pass;
  }

  /** The loop that appends one `env` element per variable to the emptied `envs` element. */
  method FillEnvs(doc: XmlDocument, root: XmlNode, p: NodePath, configurationNode: XmlNode,
                  environmentVariables: seq<(string, string)>)
    requires At(root, p) == Some(configurationNode) && configurationNode.Element?
    requires doc.root == ReplaceAt(root, p, Configured(configurationNode, []))
    modifies doc
    ensures doc.root == ReplaceAt(root, p, Configured(configurationNode, environmentVariables))
  {
    var q := p + [EnvsIndex(configurationNode)];
    for i := 0 to |environmentVariables|
      invariant doc.root == ReplaceAt(root, p, Configured(configurationNode, environmentVariables[..i]))
    {
      AppendStep(root, p, configurationNode, environmentVariables[..i], environmentVariables[i]);
      assert environmentVariables[..i] + [environmentVariables[i]] == environmentVariables[..i + 1];
      doc.AppendChild(q, EnvNode(environmentVariables[i].0, environmentVariables[i].1));
    }
    assert environmentVariables[..|environmentVariables|] == environmentVariables;
  }

  /** Nodes with the same shape are selected by the same steps. */
  lemma SelectsSameShape(a: XmlNode, b: XmlNode, tag: string, nameAttribute: Option<string>)
    requires SameShape(a, b)
    ensures Selects(a, tag, nameAttribute) <==> Selects(b, tag, nameAttribute)
  {
  }

  /**
   * Replacing the found configuration by an element with the same tag and attributes leaves the
   * expression selecting the same nodes, so the search finds the same configuration again.
   */
  lemma {:induction false} FindAfterRewrite(root: XmlNode, p: NodePath, x: XmlNode, configurationName: string)
    requires FindConfiguration(root, configurationName) == Some(p)
    requires x.Element? && x.name == At(root, p).value.name && x.attributes == At(root, p).value.attributes
    ensures FindConfiguration(ReplaceAt(root, p, x), configurationName) == Some(p)
  {
    var after := ReplaceAt(root, p, x);
    assert p == [p[0], p[1]];
    AtAbove(root, p, x, []);
    assert At(root, []) == Some(root) && At(after, []) == Some(after);
    AtAbove(root, p, x, [p[0]]);
    AtReplaced(root, p, x);
    forall i: nat, j: nat
      ensures IsMatch(root, i, j, configurationName) <==> IsMatch(after, i, j, configurationName)
    {
      if i == p[0] {
        SelectsSameShape(At(root, [i]).value, At(after, [i]).value, "component", Some("RunManager"));
        if j != p[1] {
          AtBeside(root, p, x, [i, j]);
        }
      } else {
        AtBeside(root, p, x, [i]);
        AtBeside(root, p, x, [i, j]);
      }
    }
    FindBySelection(root, after, configurationName);
  }

  /**
   * The configurator succeeds only when all three names are present, the workspace file exists
   * and parses, the configuration is found and the generator succeeds; then it rewrites the
   * workspace file and no other.
   */
  lemma SucceedsOnlyIf(files: Files, machine: MachineConfiguration, configuration: ProjectConfiguration)
    requires ConfigureEffect(files, machine, configuration).outcome.Pass?
    ensures && configuration.projectName.Some? && configuration.configurationName.Some? && configuration.location.Some?
            && var path := WorkspacePath(configuration.location.value, configuration.projectName.value);
               && path in files && files[path].XmlFile?
               && FindConfiguration(files[path].document, configuration.configurationName.value).Some?
               && GenerateSpec(machine, configuration).Success?
               && forall other :: other in files && other != path ==>
                    ConfigureEffect(files, machine, configuration).files[other] == files[other]
  {
  }

  /**
   * A successful run rewrites only the found configuration: every node outside it is unchanged,
   * its ancestors keep their tag, attributes and number of children, and the configuration itself
   * becomes `Configured(...)` (see `ConfiguredShape`).
   */
  lemma {:induction false} Succeeds(files: Files, machine: MachineConfiguration, configuration: ProjectConfiguration,
                                    root: XmlNode, p: NodePath, env: Dictionary<string, string>)
    requires configuration.projectName.Some? && configuration.configurationName.Some? && configuration.location.Some?
    requires var path := WorkspacePath(configuration.location.value, configuration.projectName.value);
             path in files && files[path] == XmlFile(root)
    requires FindConfiguration(root, configuration.configurationName.value) == Some(p)
    requires GenerateSpec(machine, configuration) == Success(env)
    ensures var r := ConfigureEffect(files, machine, configuration);
            var path := WorkspacePath(configuration.location.value, configuration.projectName.value);
            r.outcome == Pass && r.files[path].XmlFile?
    ensures var after := ConfigureEffect(files, machine, configuration)
                           .files[WorkspacePath(configuration.location.value, configuration.projectName.value)].document;
            && At(root, p).Some? && At(root, p).value.Element?
            && At(after, p) == Some(Configured(At(root, p).value, env))
            && (forall q: NodePath :: !(p <= q) && !(q <= p) ==> At(after, q) == At(root, q))
            && (forall q: NodePath :: q < p ==> At(root, q).Some? && At(after, q).Some? && SameShape(At(root, q).value, At(after, q).value))
  {
    FoundConfiguration(root, configuration.configurationName.value);
    var x := Configured(At(root, p).value, env);
    AtReplaced(root, p, x);
    forall q: NodePath | !(p <= q) && !(q <= p) ensures At(ReplaceAt(root, p, x), q) == At(root, q) {
      AtBeside(root, p, x, q);
    }
    forall q: NodePath | q < p
      ensures At(root, q).Some? && At(ReplaceAt(root, p, x), q).Some?
      ensures SameShape(At(root, q).value, At(ReplaceAt(root, p, x), q).value)
    {
      AtAbove(root, p, x, q);
    }
  }

  /** Rewriting an already rewritten configuration with the same variables changes nothing. */
  lemma ConfiguredTwice(configuration: XmlNode, env: seq<(string, string)>)
    requires configuration.Element?
    ensures Configured(Configured(configuration, env), env) == Configured(configuration, env)
  {
    ConfiguredShape(configuration, env);
  }

  /** The document-level half: the rewritten document is a fixed point of the rewrite. */
  lemma {:induction false} RewriteTwice(root: XmlNode, configurationName: string, env: seq<(string, string)>)
    requires FindConfiguration(root, configurationName).Some?
    ensures Rewritten(Rewritten(root, configurationName, env), configurationName, env)
            == Rewritten(root, configurationName, env)
  {
    var p := FindConfiguration(root, configurationName).value;
    FoundConfiguration(root, configurationName);
    var x := Configured(At(root, p).value, env);
    ConfiguredShape(At(root, p).value, env);
    FindAfterRewrite(root, p, x, configurationName);
    AtReplaced(root, p, x);
    ConfiguredTwice(At(root, p).value, env);
    ReplaceTwice(root, p, x, x);
  }

  /** Running the configurator again on the files it produced succeeds and changes nothing. */
  lemma {:induction false} ConfigureIdempotent(files: Files, machine: MachineConfiguration, configuration: ProjectConfiguration)
    requires ConfigureEffect(files, machine, configuration).outcome.Pass?
    ensures var once := ConfigureEffect(files, machine, configuration).files;
            ConfigureEffect(once, machine, configuration) == Effect(Pass, once)
  {
    SucceedsOnlyIf(files, machine, configuration);
    var name := configuration.configurationName.value;
    var path := WorkspacePath(configuration.location.value, configuration.projectName.value);
    var root := files[path].document;
    var env := GenerateSpec(machine, configuration).value;
    RewriteTwice(root, name, env);
    var once := files[path := XmlFile(Rewritten(root, name, env))];
    assert once[path := XmlFile(Rewritten(root, name, env))] == once;
  }

  /** `SelectSingleNode("envs")`, `CreateElement` and `AppendChild` when it is missing, then `RemoveAll`. */
  method PrepareEnvs(doc: XmlDocument, root: XmlNode, p: NodePath, configurationNode: XmlNode)
    requires At(root, p) == Some(configurationNode) && configurationNode.Element?
    requires doc.root == root
    modifies doc
    ensures doc.root == ReplaceAt(root, p, Configured(configurationNode, []))
  {
    var envs := FirstMatch(configurationNode.children, "envs", None);
    PrepareStep(root, p, configurationNode);
    if envs.None? {
      doc.AppendChild(p, Element("envs", [], []));
    }
    doc.RemoveAll(p + [EnvsIndex(configurationNode)]);
  }
}
