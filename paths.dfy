/** `Path.Combine` with the rules it follows on a platform whose separator is '/'. */
module Paths {

  const Separator: char := '/'

  /** A rooted path starts with the separator. */
  predicate IsRooted(p: string) {
    |p| > 0 && p[0] == Separator
  }

  /**
   * `Path.Combine(a, b)`: an empty part is dropped, a rooted `b` replaces `a`, and a separator
   * is inserted only when `a` does not already end with one.
   */
  function Combine(a: string, b: string): (r: string)
    ensures b == [] ==> r == a
    ensures a != [] && a[|a| - 1] != Separator && !IsRooted(b) && b != [] ==> r == a + [Separator] + b
  {
    if b == [] then a
    else if a == [] || IsRooted(b) then b
    else if a[|a| - 1] == Separator then a + b
    else a + [Separator] + b
  }

  /** The IDE workspace file of a project: `<location>/.idea/.idea.<project>/.idea/workspace.xml`. */
  function WorkspacePath(location: string, projectName: string): (r: string)
    ensures |r| >= 20 && r[|r| - 20..] == "/.idea/workspace.xml"
  {
    var second := Combine(Combine(location, ".idea"), ".idea." + projectName);
    CombineEndsWith(Combine(location, ".idea"), ".idea." + projectName);
    IdeaDirectory(second);
    WorkspaceFile(Combine(second, ".idea"));
    Combine(Combine(second, ".idea"), "workspace.xml")
  }

  lemma IdeaDirectory(a: string)
    requires a != []
    ensures var t := Combine(a, ".idea"); |t| >= 6 && t[|t| - 6..] == "/.idea"
  {
    CombineRelative(a, ".idea");
    var lead := Lead(a);
    assert lead[|lead| - 1] == Separator;
    assert (lead + ".idea")[|lead| - 1..] == [Separator] + ".idea";
  }

  lemma WorkspaceFile(a: string)
    requires |a| >= 6 && a[|a| - 6..] == "/.idea"
    ensures var t := Combine(a, "workspace.xml"); |t| >= 20 && t[|t| - 20..] == "/.idea/workspace.xml"
  {
    assert a[|a| - 1] == 'a';
    CombineAfterName(a, "workspace.xml");
    var t := a + [Separator] + "workspace.xml";
    assert t[|t| - 20..] == a[|a| - 6..] + [Separator] + "workspace.xml";
  }

  /** What `Combine(location, b)` puts in front of a non-empty relative `b`. */
  function Lead(location: string): string {
    if location == [] || location[|location| - 1] == Separator then location else location + [Separator]
  }

  lemma CombineRelative(location: string, b: string)
    requires b != [] && !IsRooted(b)
    ensures Combine(location, b) == Lead(location) + b
  {
  }

  /** The fixed part of a workspace path. */
  function WorkspaceTail(projectName: string): string {
    ".idea/.idea." + projectName + "/.idea/workspace.xml"
  }

  lemma CombineAfterName(a: string, b: string)
    requires a != [] && a[|a| - 1] != Separator
    requires b != [] && b[0] != Separator
    ensures Combine(a, b) == a + [Separator] + b
  {
  }

  /** The name does not end in a separator, so `Combine` puts one after it. */
  predicate NoTrailingSeparator(name: string) {
    name == [] || name[|name| - 1] != Separator
  }

  /**
   * For a project name that does not end in a separator the workspace path is the location
   * combined with one fixed relative path, so it always ends in `/.idea/workspace.xml` and names
   * the project.
   */
  lemma WorkspacePathShape(location: string, projectName: string)
    requires NoTrailingSeparator(projectName)
    ensures WorkspacePath(location, projectName) == Combine(location, WorkspaceTail(projectName))
  {
    var first := Combine(location, ".idea");
    var second := Combine(first, ".idea." + projectName);
    var third := Combine(second, ".idea");
    FirstSteps(location, projectName);
    ThirdStep(second, projectName);
    LastStep(third);
    TailLiteral(Lead(location), projectName);
    CombineRelative(location, WorkspaceTail(projectName));
  }

  lemma FirstSteps(location: string, projectName: string)
    ensures Combine(Combine(location, ".idea"), ".idea." + projectName)
         == Lead(location) + ".idea" + "/" + (".idea." + projectName)
  {
    var first := Combine(location, ".idea");
    CombineRelative(location, ".idea");
    assert first[|first| - 1] == 'a';
    CombineAfterName(first, ".idea." + projectName);
  }

  lemma ThirdStep(second: string, projectName: string)
    requires NoTrailingSeparator(projectName)
    requires exists lead :: second == lead + ".idea" + "/" + (".idea." + projectName)
    ensures Combine(second, ".idea") == second + "/" + ".idea"
  {
    var tail := ".idea." + projectName;
    assert second[|second| - 1] == tail[|tail| - 1];
    if projectName != [] {
      assert tail[|tail| - 1] == projectName[|projectName| - 1];
    }
    CombineAfterName(second, ".idea");
  }

  lemma LastStep(third: string)
    requires exists lead :: third == lead + "/" + ".idea"
    ensures Combine(third, "workspace.xml") == third + "/" + "workspace.xml"
  {
    assert third[|third| - 1] == 'a';
    CombineAfterName(third, "workspace.xml");
  }

  lemma TailLiteral(lead: string, projectName: string)
    ensures lead + ".idea" + "/" + (".idea." + projectName) + "/" + ".idea" + "/" + "workspace.xml"
         == lead + WorkspaceTail(projectName)
  {
    assert ".idea" + "/" + ".idea." == ".idea/.idea.";
    assert "/" + ".idea" + "/" + "workspace.xml" == "/.idea/workspace.xml";
  }

  /** A non-empty second part is always the end of the combined path. */
  lemma CombineEndsWith(a: string, b: string)
    requires b != []
    ensures var r := Combine(a, b); |b| <= |r| && r[|r| - |b|..] == b
  {
    var r := Combine(a, b);
    if !(a == [] || IsRooted(b)) {
      assert r == Lead(a) + b;
    }
  }

  lemma Regroup(lead: string, projectName: string)
    ensures lead + WorkspaceTail(projectName) == (lead + ".idea/.idea.") + projectName + "/.idea/workspace.xml"
  {
  }

  lemma CancelAround(x: string, p1: string, p2: string, y: string)
    requires x + p1 + y == x + p2 + y
    ensures p1 == p2
  {
    var w := x + p1 + y;
    assert |p1| == |p2|;
    assert p1 == w[|x|..|x| + |p1|];
    assert p2 == (x + p2 + y)[|x|..|x| + |p2|];
  }

  /** Two projects under one location whose names do not end in a separator never share a workspace file. */
  lemma {:induction false} WorkspacePathInjective(location: string, p1: string, p2: string)
    requires NoTrailingSeparator(p1) && NoTrailingSeparator(p2)
    requires WorkspacePath(location, p1) == WorkspacePath(location, p2)
    ensures p1 == p2
  {
    var x := Lead(location) + ".idea/.idea.";
    var y := "/.idea/workspace.xml";
    WorkspacePathShape(location, p1);
    WorkspacePathShape(location, p2);
    CombineRelative(location, WorkspaceTail(p1));
    CombineRelative(location, WorkspaceTail(p2));
    Regroup(Lead(location), p1);
    Regroup(Lead(location), p2);
    CancelAround(x, p1, p2, y);
  }

  /**
   * A name that ends in a separator gets no separator after it, so it shares its workspace file
   * with the name without that separator.
   */
  lemma TrailingSeparatorCollapses(location: string)
    ensures WorkspacePath(location, "x/") == WorkspacePath(location, "x")
  {
    var first := Combine(location, ".idea");
    FirstSteps(location, "x/");
    FirstSteps(location, "x");
    var lead := Lead(location) + ".idea" + "/";
    var slashed := lead + ".idea.x/";
    var plain := lead + ".idea.x";
    assert Combine(first, ".idea." + "x/") == slashed;
    assert Combine(first, ".idea." + "x") == plain;
    assert Combine(slashed, ".idea") == slashed + ".idea";
    assert Combine(plain, ".idea") == plain + "/" + ".idea";
    assert slashed + ".idea" == plain + "/" + ".idea";
  }
}
