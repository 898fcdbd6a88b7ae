/**
 * `ProjectEnvironmentVariableGenerator.Generate`: the environment variables of one project
 * configuration, with every `$name$` placeholder of a machine variable replaced by its value.
 */
module ProjectEnvironmentVariableGenerator {
  import opened Wrappers
  import opened Dictionaries
  import opened Models

  /** `pat` occurs in `s` starting at index `i`. */
  predicate OccursAt(s: string, pat: string, i: nat) {
    i + |pat| <= |s| && s[i..i + |pat|] == pat
  }

  ghost predicate Occurs(s: string, pat: string) {
    exists i: nat :: OccursAt(s, pat, i)
  }

  /** An occurrence in a suffix is an occurrence in the whole string. */
  lemma OccursInSuffix(s: string, pat: string, k: nat)
    requires k <= |s|
    ensures Occurs(s[k..], pat) ==> Occurs(s, pat)
  {
    if Occurs(s[k..], pat) {
      var i: nat :| OccursAt(s[k..], pat, i);
      assert s[k..][i..i + |pat|] == s[k + i..k + i + |pat|];
      assert OccursAt(s, pat, k + i);
    }
  }

  /**
   * `s.Replace(pat, rep)` with ordinal comparison: scanning from the left, each occurrence of
   * `pat` is replaced and the scan resumes after it, so occurrences never overlap and the
   * replacement text is never rescanned.
   */
  function ReplaceAll(s: string, pat: string, rep: string): (r: string)
    requires pat != []
    ensures !Occurs(s, pat) ==> r == s
    ensures rep == pat ==> r == s
    decreases |s|
  {
    if |s| < |pat| then s
    else if s[..|pat|] == pat then
      assert OccursAt(s, pat, 0);
      rep + ReplaceAll(s[|pat|..], pat, rep)
    else
      OccursInSuffix(s, pat, 1);
      [s[0]] + ReplaceAll(s[1..], pat, rep)
  }

  /** The pieces joined with `sep` between consecutive ones. */
  function Join(pieces: seq<string>, sep: string): string
    decreases |pieces|
  {
    if pieces == [] then ""
    else if |pieces| == 1 then pieces[0]
    else pieces[0] + sep + Join(pieces[1..], sep)
  }

  /**
   * The text between the occurrences `ReplaceAll` replaces: the first piece is a prefix of `s`
   * and no piece contains `pat`.
   */
  function Pieces(s: string, pat: string): (ps: seq<string>)
    requires pat != []
    ensures |ps| >= 1 && ps[0] <= s
    ensures forall j :: 0 <= j < |ps| ==> !Occurs(ps[j], pat)
    decreases |s|
  {
    if |s| < |pat| then
      assert !Occurs(s, pat);
      [s]
    else if s[..|pat|] == pat then
      assert !Occurs("", pat);
      [""] + Pieces(s[|pat|..], pat)
    else
      var rest := Pieces(s[1..], pat);
      var first := [s[0]] + rest[0];
      FirstPieceFree(s, pat, rest[0]);
      [first] + rest[1..]
  }

  /**
   * The split is leftmost: when there is more than one piece, the first is followed in `s` by
   * `pat`, and no occurrence starts inside a piece that `pat` follows.
   */
  lemma {:induction false} PiecesLeftmost(s: string, pat: string)
    requires pat != []
    ensures var ps := Pieces(s, pat);
            && (|ps| >= 2 ==> ps[0] + pat <= s)
            && forall j :: 0 <= j < |ps| - 1 ==> !Occurs(ps[j] + pat[..|pat| - 1], pat)
    decreases |s|
  {
    if |s| < |pat| {
    } else if s[..|pat|] == pat {
      PiecesLeftmost(s[|pat|..], pat);
      assert !Occurs("" + pat[..|pat| - 1], pat);
    } else {
      var rest := Pieces(s[1..], pat);
      PiecesLeftmost(s[1..], pat);
      if |rest| >= 2 {
        var first := [s[0]] + rest[0];
        var head := rest[0] + pat[..|pat| - 1];
        assert head <= rest[0] + pat;
        FirstPieceFree(s, pat, head);
        assert first + pat[..|pat| - 1] == [s[0]] + head;
        assert first + pat == [s[0]] + (rest[0] + pat);
        var ps := Pieces(s, pat);
        assert ps == [first] + rest[1..];
        assert forall j :: 1 <= j < |ps| ==> ps[j] == rest[j];
      }
    }
  }

  /** A character that does not start an occurrence, followed by an occurrence-free prefix of the rest. */
  lemma FirstPieceFree(s: string, pat: string, p: string)
    requires pat != [] && |pat| <= |s| && s[..|pat|] != pat
    requires p <= s[1..] && !Occurs(p, pat)
    ensures !Occurs([s[0]] + p, pat)
  {
    var first := [s[0]] + p;
    forall i: nat ensures !OccursAt(first, pat, i) {
      if i + |pat| <= |first| {
        if i == 0 {
          assert first[..|pat|] == s[..|pat|];
        } else {
          assert first[i..i + |pat|] == p[i - 1..i - 1 + |pat|];
          assert !OccursAt(p, pat, i - 1);
        }
      }
    }
  }

  lemma JoinPrepend(c: char, ps: seq<string>, sep: string)
    requires |ps| >= 1
    ensures Join([[c] + ps[0]] + ps[1..], sep) == [c] + Join(ps, sep)
  {
    var qs := [[c] + ps[0]] + ps[1..];
    assert qs[1..] == ps[1..];
  }

  /**
   * Replace-all is split-and-rejoin: the result is the pieces of `s` joined with `rep`, so every
   * occurrence found in the left-to-right scan is replaced.
   */
  lemma {:induction false} ReplaceAllIsRejoin(s: string, pat: string, rep: string)
    requires pat != []
    ensures ReplaceAll(s, pat, rep) == Join(Pieces(s, pat), rep)
    decreases |s|
  {
    if |s| < |pat| {
    } else if s[..|pat|] == pat {
      var rest := Pieces(s[|pat|..], pat);
      ReplaceAllIsRejoin(s[|pat|..], pat, rep);
      assert ([""] + rest)[1..] == rest;
    } else {
      var rest := Pieces(s[1..], pat);
      ReplaceAllIsRejoin(s[1..], pat, rep);
      JoinPrepend(s[0], rest, rep);
    }
  }

  /** The pieces joined with the pattern give back the original text. */
  lemma PiecesRejoin(s: string, pat: string)
    requires pat != []
    ensures Join(Pieces(s, pat), pat) == s
  {
    ReplaceAllIsRejoin(s, pat, pat);
  }

  /** A text without an occurrence is one piece. */
  lemma {:induction false} PiecesOfFree(s: string, pat: string)
    requires pat != [] && !Occurs(s, pat)
    ensures Pieces(s, pat) == [s]
    decreases |s|
  {
    if |s| >= |pat| {
      assert !OccursAt(s, pat, 0);
      OccursInSuffix(s, pat, 1);
      PiecesOfFree(s[1..], pat);
      assert [s[0]] + s[1..] == s;
    }
  }

  /** When no occurrence starts inside `q`, the first piece of `q + pat + t` is `q`. */
  lemma {:induction false} PiecesAfterFirst(q: string, pat: string, t: string)
    requires pat != [] && !Occurs(q + pat[..|pat| - 1], pat)
    ensures Pieces(q + pat + t, pat) == [q] + Pieces(t, pat)
    decreases |q|
  {
    var s := q + pat + t;
    if q == [] {
      assert s[..|pat|] == pat;
      assert s[|pat|..] == t;
    } else {
      AfterFirstStep(q, pat, t);
      PiecesAfterFirst(q[1..], pat, t);
      assert [s[0]] + q[1..] == q;
      assert ([q[1..]] + Pieces(t, pat))[1..] == Pieces(t, pat);
    }
  }

  /** One step of `PiecesAfterFirst`: `q + pat + t` does not start with `pat`, and its rest is `q[1..] + pat + t`. */
  lemma AfterFirstStep(q: string, pat: string, t: string)
    requires pat != [] && q != [] && !Occurs(q + pat[..|pat| - 1], pat)
    ensures var s := q + pat + t;
            && |pat| <= |s| && s[..|pat|] != pat && s[0] == q[0]
            && s[1..] == q[1..] + pat + t
            && !Occurs(q[1..] + pat[..|pat| - 1], pat)
  {
    var s := q + pat + t;
    var w := q + pat[..|pat| - 1];
    assert s[..|pat|] == w[..|pat|];
    assert !OccursAt(w, pat, 0);
    OccursInSuffix(w, pat, 1);
    assert w[1..] == q[1..] + pat[..|pat| - 1];
    assert s[1..] == q[1..] + pat + t;
  }

  /**
   * The split is unique: any pieces that rejoin to `s`, whose last piece holds no occurrence and
   * inside none of which an occurrence starts, are the pieces of `s`.
   */
  lemma {:induction false} PiecesUnique(qs: seq<string>, pat: string)
    requires pat != [] && |qs| >= 1
    requires !Occurs(qs[|qs| - 1], pat)
    requires forall j :: 0 <= j < |qs| - 1 ==> !Occurs(qs[j] + pat[..|pat| - 1], pat)
    ensures Pieces(Join(qs, pat), pat) == qs
    decreases |qs|
  {
    if |qs| == 1 {
      PiecesOfFree(qs[0], pat);
    } else {
      var tail := qs[1..];
      assert forall j :: 0 <= j < |tail| ==> tail[j] == qs[j + 1];
      PiecesUnique(tail, pat);
      PiecesAfterFirst(qs[0], pat, Join(tail, pat));
      assert [qs[0]] + tail == qs;
    }
  }

  /** The placeholder token of a machine variable. */
  function Token(name: string): string {
    "$" + name + "$"
  }

  /** `string.Replace` with a null replacement removes the occurrences. */
  function ReplacementOf(value: Option<string>): string {
    if value.Some? then value.value else ""
  }

  /** No machine variable's token occurs in `value`. */
  ghost predicate NoTokens(value: string, machine: seq<(string, Option<string>)>) {
    forall i :: 0 <= i < |machine| ==> !Occurs(value, Token(machine[i].0))
  }

  /**
   * The inner loop of `Generate`: one replace-all pass per machine variable, in the machine
   * table's order, each pass working on the previous pass's result.
   */
  function Substitute(value: string, machine: seq<(string, Option<string>)>): (r: string)
    ensures NoTokens(value, machine) ==> r == value
    decreases |machine|
  {
    if machine == [] then value
    else
      var n := |machine| - 1;
      assert forall i :: 0 <= i < n ==> machine[..n][i] == machine[i];
      ReplaceAll(Substitute(value, machine[..n]), Token(machine[n].0), ReplacementOf(machine[n].1))
  }

  /** An entry survives the null filter when neither its key nor its value is null. */
  predicate Kept(e: (Option<string>, Option<string>)) {
    e.0.Some? && e.1.Some?
  }

  /** The outer loop of `Generate`: null entries dropped, the others substituted, order kept. */
  function Resolve(vars: seq<(Option<string>, Option<string>)>, machine: seq<(string, Option<string>)>): seq<(string, string)>
    decreases |vars|
  {
    if vars == [] then []
    else
      var last := vars[|vars| - 1];
      var prev := Resolve(vars[..|vars| - 1], machine);
      if Kept(last) then prev + [(last.0.value, Substitute(last.1.value, machine))] else prev
  }

  /** The null filter only drops entries: one result entry per entry with a name and a value. */
  lemma {:induction false} ResolveLength(vars: seq<(Option<string>, Option<string>)>, machine: seq<(string, Option<string>)>)
    ensures |Resolve(vars, machine)| <= |vars|
    ensures (forall i :: 0 <= i < |vars| ==> Kept(vars[i])) ==> |Resolve(vars, machine)| == |vars|
  {
    if vars != [] {
      var n := |vars| - 1;
      ResolveLength(vars[..n], machine);
      assert forall i :: 0 <= i < n ==> vars[..n][i] == vars[i];
    }
  }

  /** The result's keys are exactly the keys of the entries that survive the null filter. */
  lemma {:induction false} ResolveKeys(vars: seq<(Option<string>, Option<string>)>, machine: seq<(string, Option<string>)>, k: string)
    ensures k in Keys(Resolve(vars, machine))
        <==> exists i :: 0 <= i < |vars| && vars[i].0 == Some(k) && vars[i].1.Some?
  {
    if vars != [] {
      var n := |vars| - 1;
      var front := vars[..n];
      ResolveKeys(front, machine, k);
      var prev := Resolve(front, machine);
      if Kept(vars[n]) {
        ConcatKeys(prev, [(vars[n].0.value, Substitute(vars[n].1.value, machine))]);
        assert Keys(Resolve(vars, machine)) == Keys(prev) + {vars[n].0.value};
      } else {
        assert Resolve(vars, machine) == prev;
      }
      if k in Keys(prev) {
        var i :| 0 <= i < n && front[i].0 == Some(k) && front[i].1.Some?;
        assert vars[i] == front[i];
      } else if !(vars[n].0 == Some(k) && vars[n].1.Some?) {
        forall i | 0 <= i < |vars| ensures !(vars[i].0 == Some(k) && vars[i].1.Some?) {
          if i < n {
            assert front[i] == vars[i];
          }
        }
      }
    }
  }

  /** No key is added twice: the result has distinct keys when the input has. */
  lemma {:induction false} ResolveDistinct(vars: seq<(Option<string>, Option<string>)>, machine: seq<(string, Option<string>)>)
    requires DistinctKeys(vars)
    ensures DistinctKeys(Resolve(vars, machine))
  {
    if vars != [] {
      var n := |vars| - 1;
      var front := vars[..n];
      ResolveDistinct(front, machine);
      if Kept(vars[n]) {
        var k := vars[n].0.value;
        var prev := Resolve(front, machine);
        ResolveKeys(front, machine, k);
        ConcatDistinct(prev, [(k, Substitute(vars[n].1.value, machine))]);
      }
    }
  }

  /**
   * The generator: a null project-configuration table fails first, then a null machine table;
   * otherwise the resolved table.
   */
  function GenerateSpec(machine: MachineConfiguration, configuration: ProjectConfiguration): (r: Result<Dictionary<string, string>, Error>)
    ensures r.Success? <==> configuration.environmentVariables.Some? && machine.configurationVariables.Some?
    ensures r.Failure? ==> r.error.ConfiguratorError?
  {
    if configuration.environmentVariables.None? then
      Failure(ConfiguratorError(MissingProjectEnvironmentVariables))
    else if machine.configurationVariables.None? then
      Failure(ConfiguratorError(MissingMachineConfigurationVariables))
    else
      var vars := configuration.environmentVariables.value;
      ResolveDistinct(vars, machine.configurationVariables.value);
      Success(Resolve(vars, machine.configurationVariables.value))
  }

  /** `Generate(machineConfiguration, projectConfiguration)`, loop by loop. */
  method Generate(machine: MachineConfiguration, configuration: ProjectConfiguration)
    returns (r: Result<Dictionary<string, string>, Error>)
    ensures r == GenerateSpec(machine, configuration)
  {
    if configuration.environmentVariables.None? {
      return Failure(ConfiguratorError(MissingProjectEnvironmentVariables));
    }
    if machine.configurationVariables.None? {
      return Failure(ConfiguratorError(MissingMachineConfigurationVariables));
    }
    var vars := configuration.environmentVariables.value;
    var machineVars := machine.configurationVariables.value;
    var environmentVariables: Dictionary<string, string> := [];
    for i := 0 to |vars|
      invariant environmentVariables == Resolve(vars[..i], machineVars)
    {
      assert vars[..i + 1][..i] == vars[..i];
      var (key, value) := vars[i];
      if key.None? || value.None? {
        assert Resolve(vars[..i + 1], machineVars) == Resolve(vars[..i], machineVars);
        continue;
      }
      var calculatedValue := value.value;
      for j := 0 to |machineVars|
        invariant calculatedValue == Substitute(value.value, machineVars[..j])
      {
        assert machineVars[..j + 1][..j] == machineVars[..j];
        var (machineKey, machineValue) := machineVars[j];
        calculatedValue := ReplaceAll(calculatedValue, Token(machineKey), ReplacementOf(machineValue));
      }
      assert machineVars[..|machineVars|] == machineVars;
      ResolveKeys(vars[..i], machineVars, key.value);
      assert Resolve(vars[..i + 1], machineVars) == environmentVariables + [(key.value, calculatedValue)];
      environmentVariables := Add(environmentVariables, key.value, calculatedValue);
    }
    assert vars[..|vars|] == vars;
    return Success(environmentVariables);
  }

  /** Each surviving entry's key maps to its value with every placeholder substituted. */
  lemma {:induction false} ResolveValue(vars: seq<(Option<string>, Option<string>)>, machine: seq<(string, Option<string>)>, i: nat)
    requires DistinctKeys(vars)
    requires i < |vars| && Kept(vars[i])
    ensures Lookup(Resolve(vars, machine), vars[i].0.value) == Some(Substitute(vars[i].1.value, machine))
  {
    var n := |vars| - 1;
    var front := vars[..n];
    var k := vars[i].0.value;
    var prev := Resolve(front, machine);
    if i == n {
      ResolveKeys(front, machine, k);
      ConcatLookup(prev, [(k, Substitute(vars[n].1.value, machine))], k);
    } else {
      assert front[i] == vars[i];
      ResolveValue(front, machine, i);
      if Kept(vars[n]) {
        ConcatLookup(prev, [(vars[n].0.value, Substitute(vars[n].1.value, machine))], k);
      }
    }
  }

  /** Entries are produced in the order of the input: resolving a concatenation concatenates. */
  lemma {:induction false} ResolveConcat(a: seq<(Option<string>, Option<string>)>, b: seq<(Option<string>, Option<string>)>, machine: seq<(string, Option<string>)>)
    ensures Resolve(a + b, machine) == Resolve(a, machine) + Resolve(b, machine)
    decreases |b|
  {
    if b == [] {
      assert a + b == a;
    } else {
      var n := |b| - 1;
      assert (a + b)[..|a + b| - 1] == a + b[..n];
      ResolveConcat(a, b[..n], machine);
    }
  }

  /** One pass per machine variable and no re-scan: substituting with `a + b` is `a`, then `b`. */
  lemma {:induction false} SubstituteConcat(value: string, a: seq<(string, Option<string>)>, b: seq<(string, Option<string>)>)
    ensures Substitute(value, a + b) == Substitute(Substitute(value, a), b)
    decreases |b|
  {
    if b == [] {
      assert a + b == a;
    } else {
      var n := |b| - 1;
      assert (a + b)[..|a + b| - 1] == a + b[..n];
      assert (a + b)[|a + b| - 1] == b[n];
      SubstituteConcat(value, a, b[..n]);
    }
  }

  /** The only token of a name without `$` inside that name's own token is the token itself. */
  lemma TokenInToken(x: string, k: string)
    requires '$' !in x
    requires Occurs(Token(x), Token(k))
    ensures k == x
  {
    var t, pat := Token(x), Token(k);
    var i: nat :| OccursAt(t, pat, i);
    assert t[i] == pat[0] == '$';
    assert forall j :: 0 < j < |t| - 1 ==> t[j] == x[j - 1];
    assert i == 0;
    assert t[|pat| - 1] == pat[|pat| - 1] == '$';
    assert |pat| == |t|;
    assert pat == t;
    assert k == pat[1..|pat| - 1] == t[1..|t| - 1] == x;
  }

  /**
   * A value that is exactly a token naming no machine variable is left verbatim. Inside a
   * longer value this need not hold: see `KnownTokenSwallowsUnknown`.
   */
  lemma UnknownPlaceholderVerbatim(x: string, machine: seq<(string, Option<string>)>)
    requires '$' !in x
    requires forall i :: 0 <= i < |machine| ==> machine[i].0 != x
    ensures Substitute(Token(x), machine) == Token(x)
  {
    forall i | 0 <= i < |machine|
      ensures !Occurs(Token(x), Token(machine[i].0))
    {
      if Occurs(Token(x), Token(machine[i].0)) {
        TokenInToken(x, machine[i].0);
      }
    }
  }

  /**
   * A known token that overlaps an unknown one is replaced first and takes the unknown token's
   * leading `$` with it: in `$A$X$` with only `A` known, `$X$` does not survive.
   */
  lemma KnownTokenSwallowsUnknown()
    ensures Substitute("$A$X$", [("A", Some("v"))]) == "vX$"
  {
    var machine := [("A", Some("v"))];
    assert machine[..0] == [];
    assert Token("A") == "$A$";
    assert "$A$X$"[..3] == "$A$" && "$A$X$"[3..] == "X$";
  }

  /**
   * Overlapping occurrences are not all replaced: in `$A$A$` the scan resumes after the first
   * `$A$`, so the second, which shares its `$`, survives as `A$`.
   */
  lemma OverlappingTokenSurvives()
    ensures Substitute("$A$A$", [("A", Some("v"))]) == "vA$"
  {
    var machine := [("A", Some("v"))];
    assert machine[..0] == [];
    assert Token("A") == "$A$";
    assert "$A$A$"[..3] == "$A$" && "$A$A$"[3..] == "A$";
  }

  /**
   * The check order: a null project-configuration table fails before the machine table is
   * looked at, and a null machine table fails even when the project table is empty.
   */
  lemma GenerateChecks(machine: MachineConfiguration, configuration: ProjectConfiguration)
    ensures configuration.environmentVariables.None?
        ==> GenerateSpec(machine, configuration) == Failure(ConfiguratorError(MissingProjectEnvironmentVariables))
    ensures configuration.environmentVariables.Some? && machine.configurationVariables.None?
        ==> GenerateSpec(machine, configuration) == Failure(ConfiguratorError(MissingMachineConfigurationVariables))
    ensures configuration.environmentVariables == Some([]) && machine.configurationVariables.Some?
        ==> GenerateSpec(machine, configuration) == Success([])
  {
  }

  /**
   * With both tables present the generator succeeds; a key is in the result exactly when some
   * entry with that key has a non-null value, and it maps to that value with the machine
   * variables substituted.
   */
  lemma GenerateContents(machine: MachineConfiguration, configuration: ProjectConfiguration, k: string)
    requires configuration.environmentVariables.Some? && machine.configurationVariables.Some?
    ensures GenerateSpec(machine, configuration).Success?
    ensures var vars := configuration.environmentVariables.value;
            var r := GenerateSpec(machine, configuration).value;
            && (Lookup(r, k).Some? <==> exists i :: 0 <= i < |vars| && vars[i].0 == Some(k) && vars[i].1.Some?)
            && (forall i :: 0 <= i < |vars| && vars[i].0 == Some(k) && vars[i].1.Some?
                  ==> Lookup(r, k) == Some(Substitute(vars[i].1.value, machine.configurationVariables.value)))
  {
    var vars := configuration.environmentVariables.value;
    var machineVars := machine.configurationVariables.value;
    ResolveKeys(vars, machineVars, k);
    forall i | 0 <= i < |vars| && vars[i].0 == Some(k) && vars[i].1.Some?
      ensures Lookup(Resolve(vars, machineVars), k) == Some(Substitute(vars[i].1.value, machineVars))
    {
      ResolveValue(vars, machineVars, i);
    }
  }

  /** A value that is exactly one token becomes the replacement. */
  lemma ReplaceWhole(t: string, rep: string)
    requires t != []
    ensures ReplaceAll(t, t, rep) == rep
  {
    assert t[..|t|] == t;
    assert t[|t|..] == [];
    assert rep + [] == rep;
  }

  /**
   * A machine variable whose value is null deletes its placeholder, as `string.Replace` with a
   * null replacement does: the pieces between the occurrences are joined with nothing.
   */
  lemma NullValueDeletes(s: string, name: string)
    ensures Substitute(s, [(name, None)]) == Join(Pieces(s, Token(name)), "")
    ensures Substitute(Token(name), [(name, None)]) == ""
  {
    var machine: seq<(string, Option<string>)> := [(name, None)];
    assert machine[..0] == [];
    ReplaceAllIsRejoin(s, Token(name), "");
    ReplaceWhole(Token(name), "");
  }

  /**
   * Substitution is not re-entrant and depends on the machine table's order: a replacement
   * that contains a later variable's token is substituted again ...
   */
  lemma SubstitutionChains()
    ensures Substitute("$A$", [("A", Some("$B$")), ("B", Some("x"))]) == "x"
  {
    var machine := [("A", Some("$B$")), ("B", Some("x"))];
    assert Token("A") == "$A$" && Token("B") == "$B$";
    assert machine[..1] == [("A", Some("$B$"))] && machine[..1][..0] == [];
    ReplaceWhole("$A$", "$B$");
    assert Substitute("$A$", machine[..1]) == "$B$";
    ReplaceWhole("$B$", "x");
  }

  /** ... while one that contains an earlier variable's token is left as it is. */
  lemma SubstitutionDoesNotRescan()
    ensures Substitute("$A$", [("B", Some("x")), ("A", Some("$B$"))]) == "$B$"
  {
    var machine := [("B", Some("x")), ("A", Some("$B$"))];
    assert Token("A") == "$A$" && Token("B") == "$B$";
    assert machine[..1] == [("B", Some("x"))] && machine[..1][..0] == [];
    assert ReplaceAll("$A$", "$B$", "x") == "$A$" by {
      assert "$A$"[..3][1] != "$B$"[1];
      assert "$A$"[1..] == "A$";
      assert ReplaceAll("A$", "$B$", "x") == "A$";
    }
    assert Substitute("$A$", machine[..1]) == "$A$";
    ReplaceWhole("$A$", "$B$");
  }
}
