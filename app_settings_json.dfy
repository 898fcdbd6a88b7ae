/**
 * `AppSettingsJsonConfigurator.ConfigureProjectConfigurationAsync`: write the generated
 * variables as top-level string members of an application-settings JSON file.
 */
module AppSettingsJsonConfigurator {
  import opened Wrappers
  import opened Dictionaries
  import opened Models
  import opened Paths
  import opened Json
  import opened FileSystem
  import opened ProjectEnvironmentVariableGenerator

  /** The loop `foreach (key, value) ... rootNode[key] = value`, entry by entry. */
  function PutAll(members: Dictionary<string, Json>, entries: seq<(string, string)>): (r: Dictionary<string, Json>)
    ensures |members| <= |r| <= |members| + |entries|
    decreases |entries|
  {
    if entries == [] then members
    else
      var last := entries[|entries| - 1];
      var prev := PutAll(members, entries[..|entries| - 1]);
      PutKeepsPositions(prev, last.0, JString(last.1));
      Put(prev, last.0, JString(last.1))
  }

  /** The entries as JSON string members. */
  function Strings(entries: seq<(string, string)>): (r: seq<(string, Json)>)
    ensures |r| == |entries|
    ensures forall i :: 0 <= i < |entries| ==> r[i] == (entries[i].0, JString(entries[i].1))
  {
    seq(|entries|, i requires 0 <= i < |entries| => (entries[i].0, JString(entries[i].1)))
  }

  /** The members afterwards are the old members and the written keys. */
  lemma {:induction false} PutAllKeys(members: Dictionary<string, Json>, entries: seq<(string, string)>)
    ensures Keys(PutAll(members, entries)) == Keys(members) + Keys(entries)
    decreases |entries|
  {
    if entries != [] {
      var n := |entries| - 1;
      PutAllKeys(members, entries[..n]);
      ConcatKeys(entries[..n], [entries[n]]);
      assert entries[..n] + [entries[n]] == entries;
    }
  }

  /** Every written key holds its written string, whatever it held before. */
  lemma {:induction false} PutAllWritten(members: Dictionary<string, Json>, entries: seq<(string, string)>, i: nat)
    requires DistinctKeys(entries) && i < |entries|
    ensures Lookup(PutAll(members, entries), entries[i].0) == Some(JString(entries[i].1))
    decreases |entries|
  {
    var n := |entries| - 1;
    var front := entries[..n];
    var last := entries[n];
    if i < n {
      assert front[i] == entries[i];
      assert DistinctKeys(front) by {
        forall j, k | 0 <= j < k < |front| ensures front[j].0 != front[k].0 {
          assert front[j] == entries[j] && front[k] == entries[k];
        }
      }
      PutAllWritten(members, front, i);
      assert last.0 != entries[i].0;
      assert PutAll(members, entries) == Put(PutAll(members, front), last.0, JString(last.1));
    }
  }

  /** A key that is not written keeps its value (or stays absent). */
  lemma {:induction false} PutAllFrame(members: Dictionary<string, Json>, entries: seq<(string, string)>, k: string)
    requires k !in Keys(entries)
    ensures Lookup(PutAll(members, entries), k) == Lookup(members, k)
    decreases |entries|
  {
    if entries != [] {
      var n := |entries| - 1;
      ConcatKeys(entries[..n], [entries[n]]);
      assert entries[..n] + [entries[n]] == entries;
      PutAllFrame(members, entries[..n], k);
    }
  }

  /** Existing members keep their positions; new ones come after them. */
  lemma {:induction false} PutAllKeepsPositions(members: Dictionary<string, Json>, entries: seq<(string, string)>)
    ensures var r := PutAll(members, entries);
            |members| <= |r| && forall i :: 0 <= i < |members| ==> r[i].0 == members[i].0
    decreases |entries|
  {
    if entries != [] {
      var n := |entries| - 1;
      PutAllKeepsPositions(members, entries[..n]);
      PutKeepsPositions(PutAll(members, entries[..n]), entries[n].0, JString(entries[n].1));
    }
  }

  /** Keys not yet present are appended in the generator's order, each as a JSON string. */
  lemma {:induction false} PutAllAppendsNew(members: Dictionary<string, Json>, entries: seq<(string, string)>)
    requires DistinctKeys(entries) && Keys(members) !! Keys(entries)
    ensures PutAll(members, entries) == members + Strings(entries)
    decreases |entries|
  {
    if entries != [] {
      var n := |entries| - 1;
      var front := entries[..n];
      var last := entries[n];
      FreshLast(members, entries);
      PutAllAppendsNew(members, front);
      assert last.0 !in Keys(members + Strings(front)) by {
        StringsKeys(front);
        ConcatKeys(members, Strings(front));
      }
      var mid := PutAll(members, front);
      assert PutAll(members, entries) == Put(mid, last.0, JString(last.1));
      AppendString(members, entries);
    }
  }

  /** The entries whose key is not in `present`, in their order. */
  function Fresh(entries: seq<(string, string)>, present: set<string>): (r: seq<(string, string)>)
    ensures |r| <= |entries|
    decreases |entries|
  {
    if entries == [] then []
    else
      var n := |entries| - 1;
      Fresh(entries[..n], present) + (if entries[n].0 in present then [] else [entries[n]])
  }

  /** An entry is kept exactly when it is one of the entries and its key is not present. */
  lemma {:induction false} FreshMembers(entries: seq<(string, string)>, present: set<string>, e: (string, string))
    ensures e in Fresh(entries, present) <==> e in entries && e.0 !in present
    decreases |entries|
  {
    if entries != [] {
      var n := |entries| - 1;
      assert entries == entries[..n] + [entries[n]];
      FreshMembers(entries[..n], present, e);
    }
  }

  /**
   * Whatever keys the object already holds, it afterwards consists of its old members, updated
   * in place, followed by the members for the keys it did not hold, in the generator's order.
   */
  lemma {:induction false} PutAllAppendsFresh(members: Dictionary<string, Json>, entries: seq<(string, string)>)
    requires DistinctKeys(entries)
    ensures var r := PutAll(members, entries);
            var added := Fresh(entries, Keys(members));
            && |r| == |members| + |added|
            && Keys(r[..|members|]) == Keys(members)
            && r[|members|..] == Strings(added)
    decreases |entries|
  {
    var m := |members|;
    if entries == [] {
      assert PutAll(members, entries)[..m] == members;
    } else {
      var n := |entries| - 1;
      var front, last := entries[..n], entries[n];
      assert entries == front + [last];
      ConcatDistinct(front, [last]);
      assert Keys([last]) == {last.0};
      PutAllAppendsFresh(members, front);
      PutAllKeys(members, front);
      PutFresh(PutAll(members, front), m, Keys(members), Fresh(front, Keys(members)), last);
    }
  }

  /** One assignment step of `PutAllAppendsFresh`. */
  lemma PutFresh(mid: Dictionary<string, Json>, m: nat, present: set<string>,
                 added: seq<(string, string)>, last: (string, string))
    requires m <= |mid| && |mid| == m + |added|
    requires Keys(mid[..m]) == present && mid[m..] == Strings(added)
    requires last.0 in present || last.0 !in Keys(mid)
    ensures var r := Put(mid, last.0, JString(last.1));
            var grown := added + (if last.0 in present then [] else [last]);
            && |r| == m + |grown|
            && Keys(r[..m]) == present
            && r[m..] == Strings(grown)
  {
    var v := JString(last.1);
    if last.0 in present {
      var r := Put(mid, last.0, v);
      PutKeepsTail(mid, last.0, v, m);
      PutKeepsPositions(mid, last.0, v);
      SameKeys(r[..m], mid[..m]);
    } else {
      var r := mid + [(last.0, v)];
      assert r[..m] == mid[..m];
      assert r[m..] == mid[m..] + [(last.0, v)];
      assert (added + [last])[..|added|] == added;
      StringsSnoc(added + [last]);
    }
  }

  lemma AppendString(members: seq<(string, Json)>, entries: seq<(string, string)>)
    requires entries != []
    ensures var n := |entries| - 1;
            (members + Strings(entries[..n])) + [(entries[n].0, JString(entries[n].1))] == members + Strings(entries)
  {
    StringsSnoc(entries);
  }

  lemma StringsSnoc(entries: seq<(string, string)>)
    requires entries != []
    ensures var n := |entries| - 1;
            Strings(entries) == Strings(entries[..n]) + [(entries[n].0, JString(entries[n].1))]
  {
  }

  /** The last entry's key is new to the members and to the entries before it. */
  lemma FreshLast(members: Dictionary<string, Json>, entries: seq<(string, string)>)
    requires DistinctKeys(entries) && Keys(members) !! Keys(entries) && entries != []
    ensures var n := |entries| - 1;
            && DistinctKeys(entries[..n]) && Keys(members) !! Keys(entries[..n])
            && entries[n].0 !in Keys(members) && entries[n].0 !in Keys(entries[..n])
  {
    var n := |entries| - 1;
    assert entries[..n] + [entries[n]] == entries;
    ConcatKeys(entries[..n], [entries[n]]);
    ConcatDistinct(entries[..n], [entries[n]]);
    assert Keys([entries[n]]) == {entries[n].0};
  }

  lemma {:induction false} StringsKeys(entries: seq<(string, string)>)
    ensures Keys(Strings(entries)) == Keys(entries)
    decreases |entries|
  {
    if entries != [] {
      assert Strings(entries)[1..] == Strings(entries[1..]);
      StringsKeys(entries[1..]);
    }
  }

  /** Every entry already holds its value: the loop changes nothing. */
  lemma {:induction false} PutAllFixed(members: Dictionary<string, Json>, entries: seq<(string, string)>)
    requires forall i :: 0 <= i < |entries| ==> Lookup(members, entries[i].0) == Some(JString(entries[i].1))
    ensures PutAll(members, entries) == members
    decreases |entries|
  {
    if entries != [] {
      var n := |entries| - 1;
      var front := entries[..n];
      forall i | 0 <= i < n ensures Lookup(members, front[i].0) == Some(JString(front[i].1)) {
        assert front[i] == entries[i];
      }
      PutAllFixed(members, front);
      PutSame(members, entries[n].0, JString(entries[n].1));
    }
  }

  /** Writing the same variables twice gives the document written once. */
  lemma PutAllIdempotent(members: Dictionary<string, Json>, entries: seq<(string, string)>)
    requires DistinctKeys(entries)
    ensures PutAll(PutAll(members, entries), entries) == PutAll(members, entries)
  {
    forall i | 0 <= i < |entries|
      ensures Lookup(PutAll(members, entries), entries[i].0) == Some(JString(entries[i].1))
    {
      PutAllWritten(members, entries, i);
    }
    PutAllFixed(PutAll(members, entries), entries);
  }

  /** `{"X":"y"}` with A=1 and B=2 written becomes `{"X":"y","A":"1","B":"2"}`. */
  lemma AppendExample()
    ensures PutAll([("X", JString("y"))], [("A", "1"), ("B", "2")])
         == [("X", JString("y")), ("A", JString("1")), ("B", JString("2"))]
  {
    var members: Dictionary<string, Json> := [("X", JString("y"))];
    var entries := [("A", "1"), ("B", "2")];
    assert Keys(entries) == {"A", "B"};
    PutAllAppendsNew(members, entries);
  }

  /**
   * `{"A":"0"}` with B=1, A=2 and C=3 written becomes `{"A":"2","B":"1","C":"3"}`: the
   * existing member is updated where it stands, the new ones follow in the generator's order.
   */
  lemma MixedExample(members: Dictionary<string, Json>, entries: seq<(string, string)>)
    requires members == [("A", JString("0"))] && entries == [("B", "1"), ("A", "2"), ("C", "3")]
    ensures PutAll(members, entries) == [("A", JString("2")), ("B", JString("1")), ("C", JString("3"))]
  {
    var r := PutAll(members, entries);
    MixedLayout(members, entries);
    PutAllWritten(members, entries, 1);
    assert r == [r[0]] + r[1..];
  }

  /** The example's old member stays first, and the two new ones follow it. */
  lemma MixedLayout(members: Dictionary<string, Json>, entries: seq<(string, string)>)
    requires members == [("A", JString("0"))] && entries == [("B", "1"), ("A", "2"), ("C", "3")]
    ensures var r := PutAll(members, entries);
            |r| == 3 && r[0].0 == "A" && r[1..] == [("B", JString("1")), ("C", JString("3"))]
  {
    var r := PutAll(members, entries);
    assert Keys(members) == {"A"};
    MixedFresh(entries);
    PutAllAppendsFresh(members, entries);
    assert r[..1] == [r[0]];
  }

  lemma MixedFresh(entries: seq<(string, string)>)
    requires entries == [("B", "1"), ("A", "2"), ("C", "3")]
    ensures Fresh(entries, {"A"}) == [("B", "1"), ("C", "3")]
  {
    var present := {"A"};
    assert entries[..2][..1] == entries[..1] && entries[..1][..0] == [];
    assert Fresh(entries[..1], present) == [("B", "1")];
    assert Fresh(entries[..2], present) == [("B", "1")];
  }

  /** `new ConfiguratorException(...)`. */
  function Raise(reason: Reason): Outcome<Error>
  {
    Fail(ConfiguratorError(reason))
  }

  /** The path the configurator reads and rewrites, once location and name are known. */
  function SettingsPath(configuration: ProjectConfiguration): string
    requires configuration.location.Some? && configuration.name.Some?
  {
    Combine(configuration.location.value, configuration.name.value)
  }

  /**
   * What `ConfigureProjectConfigurationAsync` does to the files: the checks in the order the
   * source makes them, then the variables written into the root object and the file rewritten.
   * Whatever fails, no file is touched; the set of files never changes.
   */
  function ConfigureEffect(files: Files, machine: MachineConfiguration, configuration: ProjectConfiguration): (r: Effect)
    ensures r.outcome.Fail? ==> r.files == files
    ensures r.files.Keys == files.Keys
    ensures r.outcome.Pass? ==>
              configuration.location.Some? && configuration.name.Some? &&
              SettingsPath(configuration) in files &&
              files[SettingsPath(configuration)].JsonFile? && files[SettingsPath(configuration)].json.JObject? &&
              GenerateSpec(machine, configuration).Success? &&
              forall p :: p in files && p != SettingsPath(configuration) ==> r.files[p] == files[p]
  {
    if configuration.location.None? then Effect(Raise(MissingLocation), files)
    else if configuration.name.None? then Effect(Raise(MissingName), files)
    else
      var path := SettingsPath(configuration);
      if path !in files then Effect(Raise(FileNotFound(path)), files)
      else if !files[path].JsonFile? then Effect(Fail(MalformedFile(path)), files)
      else
        var root := files[path].json;
        if root.JNull? then Effect(Raise(RootNotParsed(path)), files)
        else if !root.JObject? then Effect(Raise(RootNotObject(path)), files)
        else match GenerateSpec(machine, configuration)
          case Failure(e) => Effect(Fail(e), files)
          case Success(env) => Effect(Pass, files[path := JsonFile(JObject(PutAll(root.members, env)))])
  }

  /**
   * Which exception a failing call raises, in the order the source checks: location, name, the
   * file's existence, the parse (whose failure is not a `ConfiguratorException`), the root, and
   * only then the generator.
   */
  lemma FailureReasons(files: Files, machine: MachineConfiguration, configuration: ProjectConfiguration)
    ensures var outcome := ConfigureEffect(files, machine, configuration).outcome;
            && (configuration.location.None? ==> outcome == Raise(MissingLocation))
            && (configuration.location.Some? && configuration.name.None? ==> outcome == Raise(MissingName))
    ensures configuration.location.Some? && configuration.name.Some? ==>
            var outcome := ConfigureEffect(files, machine, configuration).outcome;
            var path := SettingsPath(configuration);
            && (path !in files ==> outcome == Raise(FileNotFound(path)))
            && (path in files && !files[path].JsonFile? ==> outcome == Fail(MalformedFile(path)))
            && (path in files && files[path].JsonFile? && files[path].json.JNull? ==>
                  outcome == Raise(RootNotParsed(path)))
            && (path in files && files[path].JsonFile? && !files[path].json.JNull? && !files[path].json.JObject? ==>
                  outcome == Raise(RootNotObject(path)))
            && (path in files && files[path].JsonFile? && files[path].json.JObject? && GenerateSpec(machine, configuration).Failure? ==>
                  outcome == Fail(GenerateSpec(machine, configuration).error))
  {
  }

  /** The configurator with a mutable file system and a mutable root object. */
  method ConfigureProjectConfiguration(disk: Disk, machine: MachineConfiguration, configuration: ProjectConfiguration)
    returns (outcome: Outcome<Error>)
    modifies disk
    ensures Effect(outcome, disk.files) == ConfigureEffect(old(disk.files), machine, configuration)
  {
    if configuration.location.None? {
      return Raise(MissingLocation);
    }
    if configuration.name.None? {
      return Raise(MissingName);
    }
    var path := Combine(configuration.location.value, configuration.name.value);
    if path !in disk.files {
      return Raise(FileNotFound(path));
    }
    var content := disk.files[path];
    if !content.JsonFile? {
      return Fail(MalformedFile(path));
    }
    var rootNode := content.json;
    if rootNode.JNull? {
      return Raise(RootNotParsed(path));
    }
    if !rootNode.JObject? {
      return Raise(RootNotObject(path));
    }
    var rootObject := new JsonObjectNode(rootNode.members);
    var generated := Generate(machine, configuration);
    if generated.Failure? {
      return Fail(generated.error);
    }
    var environmentVariables := generated.value;
    for i := 0 to |environmentVariables|
      invariant disk.files == old(disk.files)
      invariant rootObject.members == PutAll(rootNode.members, environmentVariables[..i])
    {
      assert environmentVariables[..i + 1][..i] == environmentVariables[..i];
      rootObject.SetItem(environmentVariables[i].0, JString(environmentVariables[i].1));
    }
    assert environmentVariables[..|environmentVariables|] == environmentVariables;
    disk.Write(path, JsonFile(JObject(rootObject.members)));
    return Pass;
  }

  /**
   * The assignment loop in full: the old and generated keys, every generated key holding its
   * string, every other member untouched, existing members in place, and after them exactly the
   * generated keys that were not present, in the generator's order.
   */
  lemma PutAllSummary(before: Dictionary<string, Json>, env: Dictionary<string, string>)
    ensures var after := PutAll(before, env);
            && Keys(after) == Keys(before) + Keys(env)
            && (forall i :: 0 <= i < |env| ==> Lookup(after, env[i].0) == Some(JString(env[i].1)))
            && (forall k :: k !in Keys(env) ==> Lookup(after, k) == Lookup(before, k))
            && |before| <= |after| && (forall i :: 0 <= i < |before| ==> after[i].0 == before[i].0)
            && (Keys(before) !! Keys(env) ==> after == before + Strings(env))
            && |after| == |before| + |Fresh(env, Keys(before))|
            && after[|before|..] == Strings(Fresh(env, Keys(before)))
  {
    PutAllKeys(before, env);
    forall i | 0 <= i < |env|
      ensures Lookup(PutAll(before, env), env[i].0) == Some(JString(env[i].1))
    {
      PutAllWritten(before, env, i);
    }
    forall k | k !in Keys(env)
      ensures Lookup(PutAll(before, env), k) == Lookup(before, k)
    {
      PutAllFrame(before, env, k);
    }
    PutAllKeepsPositions(before, env);
    PutAllAppendsFresh(before, env);
    if Keys(before) !! Keys(env) {
      PutAllAppendsNew(before, env);
    }
  }

  /**
   * When the settings file holds a JSON object and the generator succeeds, the configurator
   * succeeds, and the rewritten object holds every generated variable as a string, keeps every
   * other member and the position of every existing member, and appends the members for keys
   * it did not hold in the generator's order.
   */
  lemma Succeeds(files: Files, machine: MachineConfiguration, configuration: ProjectConfiguration,
                 before: Dictionary<string, Json>, env: Dictionary<string, string>)
    requires configuration.location.Some? && configuration.name.Some?
    requires SettingsPath(configuration) in files && files[SettingsPath(configuration)] == JsonFile(JObject(before))
    requires GenerateSpec(machine, configuration) == Success(env)
    ensures var r := ConfigureEffect(files, machine, configuration);
            r.outcome == Pass && r.files[SettingsPath(configuration)].JsonFile? &&
            r.files[SettingsPath(configuration)].json.JObject?
    ensures var after := ConfigureEffect(files, machine, configuration).files[SettingsPath(configuration)].json.members;
            && Keys(after) == Keys(before) + Keys(env)
            && (forall i :: 0 <= i < |env| ==> Lookup(after, env[i].0) == Some(JString(env[i].1)))
            && (forall k :: k !in Keys(env) ==> Lookup(after, k) == Lookup(before, k))
            && |before| <= |after| && (forall i :: 0 <= i < |before| ==> after[i].0 == before[i].0)
            && (Keys(before) !! Keys(env) ==> after == before + Strings(env))
            && |after| == |before| + |Fresh(env, Keys(before))|
            && after[|before|..] == Strings(Fresh(env, Keys(before)))
  {
    var path := SettingsPath(configuration);
    assert ConfigureEffect(files, machine, configuration).files[path].json.members == PutAll(before, env);
    PutAllSummary(before, env);
  }

  /** Running the configurator again on the files it produced succeeds and changes nothing. */
  lemma ConfigureIdempotent(files: Files, machine: MachineConfiguration, configuration: ProjectConfiguration)
    requires ConfigureEffect(files, machine, configuration).outcome.Pass?
    ensures var once := ConfigureEffect(files, machine, configuration).files;
            ConfigureEffect(once, machine, configuration) == Effect(Pass, once)
  {
    var path := SettingsPath(configuration);
    PutAllIdempotent(files[path].json.members, GenerateSpec(machine, configuration).value);
  }
}
