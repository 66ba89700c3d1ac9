/**
 `changed_tests.py`: which tests a set of changed files calls for.

 Paths are strings relative to the root of the repository. The import graph, module name
 to the test-side files that import it, and the files that exist are parameters.
 */
module ChangedTests {
  import opened Collections
  import opened Wrappers

  type Path = string

  type Graph = map<string, set<Path>>

  const NO_TESTS_PREFIXES := [".claude/", ".github/", "deploy/", "docker/", "docs/"]
  const NO_TESTS_SUFFIX := ".md"
  const NO_TESTS_FILES: set<Path> :=
    {"docker-compose.yml", "docker-compose.deploy.yml", ".gitignore", ".pre-commit-config.yaml",
     "scripts/lessons_check.py"}

  const ALWAYS: set<Path> :=
    {"tests/test_code_conventions.py", "tests/test_export_routes.py", "tests/test_permissions_registry.py",
     "tests/test_request_bounds.py", "tests/test_request_stripping.py"}

  // ---------------------------------------------------------------------------
  // Paths
  // ---------------------------------------------------------------------------

  predicate EndsWith(s: string, suffix: string) {
    |suffix| <= |s| && s[|s| - |suffix|..] == suffix
  }

  // `s.split("/")`
  function Split(s: string): (parts: seq<string>)
    ensures |parts| > 0
  {
    if s == "" then [""]
    else
      var rest := Split(s[1..]);
      if s[0] == '/' then [""] + rest else [[s[0]] + rest[0]] + rest[1..]
  }

  // `s.rsplit("/", 1)`: the part before the last slash, "." without one, and the name.
  function ParentAndName(s: string): (string, string) {
    if s == "" then (".", "")
    else if s[|s| - 1] == '/' then (s[..|s| - 1], "")
    else
      var (parent, name) := ParentAndName(s[..|s| - 1]);
      (parent, name + [s[|s| - 1]])
  }

  function Dotted(s: string): string {
    if s == "" then "" else [if s[0] == '/' then '.' else s[0]] + Dotted(s[1..])
  }

  // `_module_name`: the path without its suffix, dotted.
  function ModuleName(path: Path): string {
    Dotted(if EndsWith(path, ".py") then path[..|path| - 3] else path)
  }

  // ---------------------------------------------------------------------------
  // The transitive importers
  // ---------------------------------------------------------------------------

  function ImportersOf(g: Graph, path: Path): set<Path> {
    if ModuleName(path) in g then g[ModuleName(path)] else {}
  }

  function Importers(g: Graph, paths: set<Path>): set<Path> {
    set p, q | p in paths && q in ImportersOf(g, p) :: q
  }

  predicate IsClosed(g: Graph, paths: set<Path>) {
    Importers(g, paths) <= paths
  }

  function Everyone(g: Graph): set<Path> {
    set m, q | m in g && q in g[m] :: q
  }

  /** The seeds and everything that imports them, at any remove. */
  function Closure(g: Graph, seeds: set<Path>): (all: set<Path>)
    ensures seeds <= all && IsClosed(g, all)
    decreases |Everyone(g) - seeds|
  {
    if IsClosed(g, seeds) then seeds
    else
      var more := seeds + Importers(g, seeds);
      FewerLeft(g, seeds);
      Closure(g, more)
  }

  lemma FewerLeft(g: Graph, seeds: set<Path>)
    requires !IsClosed(g, seeds)
    ensures |Everyone(g) - (seeds + Importers(g, seeds))| < |Everyone(g) - seeds|
  {
    var q :| q in Importers(g, seeds) && q !in seeds;
    assert q in Everyone(g) - seeds;
    assert Everyone(g) - (seeds + Importers(g, seeds)) <= Everyone(g) - seeds - {q};
    SubsetSize(Everyone(g) - (seeds + Importers(g, seeds)), Everyone(g) - seeds - {q});
  }

  /** The closure is the least importer-closed superset of the seeds. */
  lemma {:induction false} ClosureIsLeast(g: Graph, seeds: set<Path>, other: set<Path>)
    requires seeds <= other && IsClosed(g, other)
    ensures Closure(g, seeds) <= other
    decreases |Everyone(g) - seeds|
  {
    if IsClosed(g, seeds) {
    } else {
      FewerLeft(g, seeds);
      forall q | q in Importers(g, seeds) ensures q in other
      {
        var p :| p in seeds && q in ImportersOf(g, p);
        assert q in Importers(g, other);
      }
      ClosureIsLeast(g, seeds + Importers(g, seeds), other);
    }
  }

  lemma ClosureIsMonotone(g: Graph, seeds: set<Path>, more: set<Path>)
    requires seeds <= more
    ensures Closure(g, seeds) <= Closure(g, more)
  {
    ClosureIsLeast(g, seeds, Closure(g, more));
  }

  // Everything seen is waiting or has its importers seen.
  ghost predicate Explored(g: Graph, seen: set<Path>, stack: seq<Path>) {
    && (forall p :: p in stack ==> p in seen)
    && (forall p, q :: p in seen && p !in stack && q in ImportersOf(g, p) ==> q in seen)
  }

  /** The worklist of `_with_importers`. */
  method WithImporters(g: Graph, seeds: set<Path>) returns (seen: set<Path>)
    ensures seen == Closure(g, seeds)
  {
    seen := seeds;
    var stack := ToStack(seeds);
    ghost var all := Closure(g, seeds);
    while stack != []
      invariant IsClosed(g, all) && seeds <= seen <= all && Explored(g, seen, stack)
      decreases |all - seen|, |stack|
    {
      var path, below := stack[|stack| - 1], stack[..|stack| - 1];
      ghost var seen0, stack0 := seen, stack;
      seen, stack := PushUnseen(seen, below, ImportersOf(g, path));
      OneExplored(g, seen0, stack0, seen, stack, all);
    }
    AllExplored(g, seeds, seen);
  }

  lemma AllExplored(g: Graph, seeds: set<Path>, seen: set<Path>)
    requires seeds <= seen <= Closure(g, seeds) && Explored(g, seen, [])
    ensures seen == Closure(g, seeds)
  {
    assert IsClosed(g, seen);
    ClosureIsLeast(g, seeds, seen);
  }

  // The inner loop: the unseen importers of the popped path, seen and stacked.
  method PushUnseen(seen0: set<Path>, stack0: seq<Path>, importers: set<Path>)
    returns (seen: set<Path>, stack: seq<Path>)
    ensures Pushed(seen0, stack0, importers, seen, stack)
  {
    seen, stack := seen0, stack0;
    var rest := importers;
    while rest != {}
      invariant rest <= importers && Pushed(seen0, stack0, importers - rest, seen, stack)
      decreases rest
    {
      var importer :| importer in rest;
      OneMoreDone(importers, rest, importer);
      if importer !in seen {
        seen := seen + {importer};
        stack := stack + [importer];
      }
      rest := rest - {importer};
    }
  }

  ghost predicate Pushed(seen0: set<Path>, stack0: seq<Path>, importers: set<Path>, seen: set<Path>, stack: seq<Path>) {
    && seen == seen0 + importers
    && (forall p :: p in stack <==> p in stack0 || (p in importers && p !in seen0))
    && (seen == seen0 ==> stack == stack0)
  }

  lemma OneExplored(g: Graph, seen0: set<Path>, stack0: seq<Path>, seen: set<Path>, stack: seq<Path>, all: set<Path>)
    requires seen0 <= all && IsClosed(g, all) && Explored(g, seen0, stack0) && stack0 != []
    requires Pushed(seen0, stack0[..|stack0| - 1], ImportersOf(g, stack0[|stack0| - 1]), seen, stack)
    ensures Explored(g, seen, stack) && seen <= all
    ensures |all - seen| < |all - seen0| || (seen == seen0 && stack == stack0[..|stack0| - 1])
  {
    var path, below := stack0[|stack0| - 1], stack0[..|stack0| - 1];
    assert stack0 == below + [path] && path in stack0;
    forall p | p in stack ensures p in seen { assert p in below ==> p in stack0; }
    forall q | q in ImportersOf(g, path) ensures q in all { assert q in Importers(g, all); }
    if seen != seen0 { SeenGrows(all, seen0, seen); }
  }

  lemma SeenGrows(all: set<Path>, seen0: set<Path>, seen: set<Path>)
    requires seen0 < seen <= all
    ensures |all - seen| < |all - seen0|
  {
    var q :| q in seen && q !in seen0;
    SubsetSize(all - seen, all - seen0 - {q});
  }

  method ToStack(paths: set<Path>) returns (stack: seq<Path>)
    ensures forall p :: p in stack <==> p in paths
  {
    stack := [];
    var rest := paths;
    while rest != {}
      invariant rest <= paths && forall p :: p in stack <==> p in paths - rest
      decreases rest
    {
      var p :| p in rest;
      stack := stack + [p];
      rest := rest - {p};
    }
  }

  // ---------------------------------------------------------------------------
  // The selection
  // ---------------------------------------------------------------------------

  /** Nothing to run, `ALL`, or the pytest paths. */
  datatype Selection = Nothing | All | Paths(paths: set<Path>)

  datatype Rule = Skip | Module(target: Path) | TestSide | Unknown

  predicate HasNoTests(f: Path) {
    || f in NO_TESTS_FILES
    || (exists i :: 0 <= i < |NO_TESTS_PREFIXES| && NO_TESTS_PREFIXES[i] <= f)
    || EndsWith(f, NO_TESTS_SUFFIX)
  }

  // The first rule that fits a changed file; a deleted test-side file fits none.
  function RuleOf(present: set<Path>, f: Path): Rule {
    var parts := Split(f);
    if HasNoTests(f) then Skip
    else if |parts| > 3 && parts[0] == "app" && parts[1] == "modules" then Module("tests/modules/" + parts[2])
    else if parts[0] == "tests" && EndsWith(f, ".py") && f != "tests/conftest.py" then
      if f in present then TestSide else Unknown
    else Unknown
  }

  // What a test-side file of the closure adds: a helper module adds nothing.
  function TargetOf(path: Path): Option<Path> {
    var (parent, name) := ParentAndName(path);
    if name == "conftest.py" then Some(parent)
    else if "test_" <= name then Some(path)
    else None
  }

  predicate IsPackage(target: Path) {
    !EndsWith(target, ".py")
  }

  predicate Under(target: Path, package: Path) {
    package + "/" <= target
  }

  // `kept`: the targets that no target package runs already.
  function Kept(targets: set<Path>): set<Path> {
    set t | t in targets && !exists p :: p in targets && IsPackage(p) && Under(t, p)
  }

  function Named(files: seq<Path>): set<Path> {
    set f | f in files
  }

  predicate Unclear(present: set<Path>, files: set<Path>) {
    exists f :: f in files && RuleOf(present, f).Unknown?
  }

  function Seeds(present: set<Path>, files: set<Path>): set<Path> {
    set f | f in files && RuleOf(present, f).TestSide?
  }

  function ModuleTargets(present: set<Path>, files: set<Path>): set<Path> {
    set f | f in files && RuleOf(present, f).Module? :: RuleOf(present, f).target
  }

  function PathTargets(paths: set<Path>): set<Path> {
    set p | p in paths && TargetOf(p).Some? :: TargetOf(p).value
  }

  function Targets(g: Graph, present: set<Path>, files: set<Path>): set<Path> {
    ModuleTargets(present, files) + PathTargets(Closure(g, Seeds(present, files)))
  }

  function Selected(g: Graph, present: set<Path>, files: set<Path>): Selection {
    if Unclear(present, files) then All
    else
      var targets := Targets(g, present, files);
      if targets == {} then Nothing else Paths(Kept(targets) + ALWAYS)
  }

  /** `select`: whatever the order of the files, and however often each is named. */
  method Select(g: Graph, present: set<Path>, files: seq<Path>) returns (selection: Selection)
    ensures selection == Selected(g, present, Named(files))
  {
    var targets: set<Path> := {};
    var seeds: set<Path> := {};
    for i := 0 to |files|
      invariant !Unclear(present, Named(files[..i]))
      invariant targets == ModuleTargets(present, Named(files[..i]))
      invariant seeds == Seeds(present, Named(files[..i]))
    {
      var f := files[i];
      OneFileMore(present, files, i);
      match RuleOf(present, f)
      case Skip =>
      case Module(target) => targets := targets + {target};
      case TestSide => seeds := seeds + {f};
      case Unknown => return All;
    }
    assert files[..|files|] == files;
    var paths := WithImporters(g, seeds);
    var fromTests := CollectTargets(paths);
    targets := targets + fromTests;
    if targets == {} { return Nothing; }
    return Paths(Kept(targets) + ALWAYS);
  }

  lemma OneFileMore(present: set<Path>, files: seq<Path>, i: nat)
    requires i < |files|
    ensures Named(files[..i + 1]) == Named(files[..i]) + {files[i]}
    ensures var before, after := Named(files[..i]), Named(files[..i + 1]);
            && (Unclear(present, after) <==> Unclear(present, before) || RuleOf(present, files[i]).Unknown?)
            && Seeds(present, after) == Seeds(present, before) + Seeds(present, {files[i]})
            && ModuleTargets(present, after) == ModuleTargets(present, before) + ModuleTargets(present, {files[i]})
    ensures RuleOf(present, files[i]).Unknown? ==> Unclear(present, Named(files))
  {
    assert files[..i + 1] == files[..i] + [files[i]];
  }

  method CollectTargets(paths: set<Path>) returns (targets: set<Path>)
    ensures targets == PathTargets(paths)
  {
    targets := {};
    var rest := paths;
    while rest != {}
      invariant rest <= paths && targets == PathTargets(paths - rest)
      decreases rest
    {
      var path :| path in rest;
      OneMoreDone(paths, rest, path);
      OnePathMore(paths - rest, path);
      if TargetOf(path).Some? {
        targets := targets + {TargetOf(path).value};
      }
      rest := rest - {path};
    }
    assert paths - rest == paths;
  }

  lemma OnePathMore(paths: set<Path>, path: Path)
    ensures PathTargets(paths + {path}) ==
            PathTargets(paths) + if TargetOf(path).Some? then {TargetOf(path).value} else {}
  {
  }

  // ---------------------------------------------------------------------------
  // Coverage
  // ---------------------------------------------------------------------------

  /** pytest runs the target: it is printed, or lies under a printed package. */
  predicate Covered(printed: set<Path>, target: Path) {
    target in printed || exists p :: p in printed && IsPackage(p) && Under(target, p)
  }

  lemma UnderIsTransitive(target: Path, inner: Path, outer: Path)
    requires Under(target, inner) && Under(inner, outer)
    ensures Under(target, outer)
  {
    assert outer + "/" <= inner <= inner + "/" <= target;
  }

  /** Dropping targets under a package loses none, however packages nest. */
  lemma {:induction false} KeptCoversAll(targets: set<Path>, target: Path)
    requires target in targets
    ensures Covered(Kept(targets), target)
    decreases |target|
  {
    if target in Kept(targets) {
    } else {
      var p :| p in targets && IsPackage(p) && Under(target, p);
      KeptCoversAll(targets, p);
      if p !in Kept(targets) {
        var q :| q in Kept(targets) && IsPackage(q) && Under(p, q);
        UnderIsTransitive(target, p, q);
      }
    }
  }

  /** No kept target lies under another. */
  lemma KeptIsIrredundant(targets: set<Path>, target: Path)
    requires target in Kept(targets)
    ensures !Covered(Kept(targets) - {target}, target)
  {
  }

  /** When paths are printed, every test file and conftest package of the closure, the tests of
      every changed module, and the static guards are run. */
  lemma EveryTestIsCovered(g: Graph, present: set<Path>, files: set<Path>)
    requires Selected(g, present, files).Paths?
    ensures var printed := Selected(g, present, files).paths;
            && (forall p :: p in Closure(g, Seeds(present, files)) && TargetOf(p).Some? ==>
                              Covered(printed, TargetOf(p).value))
            && (forall f :: f in files && RuleOf(present, f).Module? ==> Covered(printed, RuleOf(present, f).target))
            && {"tests/test_code_conventions.py", "tests/test_export_routes.py", "tests/test_permissions_registry.py",
                "tests/test_request_bounds.py", "tests/test_request_stripping.py"} <= printed
  {
    var targets := Targets(g, present, files);
    forall t | t in targets ensures Covered(Kept(targets) + ALWAYS, t)
    {
      KeptCoversAll(targets, t);
    }
    forall p | p in Closure(g, Seeds(present, files)) && TargetOf(p).Some? ensures TargetOf(p).value in targets {
      assert TargetOf(p).value in PathTargets(Closure(g, Seeds(present, files)));
    }
    forall f | f in files && RuleOf(present, f).Module? ensures RuleOf(present, f).target in targets {
      assert RuleOf(present, f).target in ModuleTargets(present, files);
    }
  }

  /** Changing more files never runs less: `ALL`, or everything the fewer files ran. */
  lemma MoreChangesRunMore(g: Graph, present: set<Path>, files: set<Path>, more: set<Path>)
    requires files <= more && Selected(g, present, files).Paths?
    ensures var selection := Selected(g, present, more);
            selection.All? ||
            (selection.Paths? && forall t :: t in Selected(g, present, files).paths ==> Covered(selection.paths, t))
  {
    if !Unclear(present, more) {
      var fewer, targets := Targets(g, present, files), Targets(g, present, more);
      ClosureIsMonotone(g, Seeds(present, files), Seeds(present, more));
      assert fewer <= targets;
      forall t | t in Kept(fewer) + ALWAYS ensures Covered(Kept(targets) + ALWAYS, t)
      {
        if t in Kept(fewer) { KeptCoversAll(targets, t); }
      }
    }
  }

  // ---------------------------------------------------------------------------
  // The selection, in terms of the paths
  // ---------------------------------------------------------------------------

  /** The files that call for no test. */
  lemma IgnoredFiles(f: Path)
    ensures HasNoTests(f) <==>
            || EndsWith(f, ".md")
            || ".claude/" <= f || ".github/" <= f || "deploy/" <= f || "docker/" <= f || "docs/" <= f
            || f in {"docker-compose.yml", "docker-compose.deploy.yml", ".gitignore", ".pre-commit-config.yaml",
                     "scripts/lessons_check.py"}
  {
    assert NO_TESTS_PREFIXES[0] == ".claude/" && NO_TESTS_PREFIXES[1] == ".github/";
    assert NO_TESTS_PREFIXES[2] == "deploy/" && NO_TESTS_PREFIXES[3] == "docker/" && NO_TESTS_PREFIXES[4] == "docs/";
  }

  // A file of the module `m`, at any depth.
  ghost predicate IsOfModule(f: Path, m: string) {
    '/' !in m && exists rest :: f == "app/modules/" + m + "/" + rest
  }

  predicate IsTestSide(f: Path) {
    "tests/" <= f && EndsWith(f, ".py") && f != "tests/conftest.py"
  }

  lemma {:induction false} SplitJoins(s: string) returns (rest: string)
    ensures '/' !in Split(s)[0]
    ensures |Split(s)| == 1 ==> Split(s)[0] == s
    ensures |Split(s)| > 1 ==> s == Split(s)[0] + "/" + rest && Split(rest) == Split(s)[1..]
  {
    rest := "";
    if s != "" {
      if s[0] == '/' {
        rest := s[1..];
        assert s == "" + "/" + rest;
      } else {
        rest := SplitJoins(s[1..]);
        if |Split(s)| > 1 { assert s == [s[0]] + s[1..] == [s[0]] + Split(s[1..])[0] + "/" + rest; }
      }
    }
  }

  lemma {:induction false} SplitAtSlash(a: string, rest: string)
    requires '/' !in a
    ensures Split(a + "/" + rest) == [a] + Split(rest)
  {
    var s := a + "/" + rest;
    if a == "" {
      assert s[1..] == rest;
    } else {
      SplitAtSlash(a[1..], rest);
      assert s[1..] == a[1..] + "/" + rest && s[0] == a[0] && a[0] in a;
      assert [a[0]] + a[1..] == a;
    }
  }

  lemma ModuleParts(f: Path, m: string)
    ensures IsOfModule(f, m) <==>
            |Split(f)| > 3 && Split(f)[0] == "app" && Split(f)[1] == "modules" && Split(f)[2] == m
  {
    if IsOfModule(f, m) {
      var rest :| f == "app/modules/" + m + "/" + rest;
      SplitOfModule(m, rest);
    }
    if |Split(f)| > 3 && Split(f)[0] == "app" && Split(f)[1] == "modules" && Split(f)[2] == m {
      var rest := ModuleOfSplit(f);
    }
  }

  lemma SplitOfModule(m: string, rest: string)
    requires '/' !in m
    ensures Split("app/modules/" + m + "/" + rest) == ["app", "modules", m] + Split(rest)
  {
    var inner := m + "/" + rest;
    SplitAtSlash(m, rest);
    SplitAtSlash("modules", inner);
    SplitAtSlash("app", "modules" + "/" + inner);
    assert "app/modules/" + m + "/" + rest == "app/modules/" + inner;
    assert "app/modules/" + inner == "app" + "/" + ("modules" + "/" + inner) by { ModulesPrefix(inner); }
    assert ["app"] + (["modules"] + ([m] + Split(rest))) == ["app", "modules", m] + Split(rest);
  }

  lemma ModuleOfSplit(f: Path) returns (rest: string)
    requires |Split(f)| > 3 && Split(f)[0] == "app" && Split(f)[1] == "modules"
    ensures f == "app/modules/" + Split(f)[2] + "/" + rest && '/' !in Split(f)[2]
  {
    var one := SplitJoins(f);
    var two := SplitJoins(one);
    rest := SplitJoins(two);
    assert Split(f)[2] == Split(two)[0];
    ModulesPrefix(two);
    assert f == "app/modules/" + (Split(f)[2] + "/" + rest);
  }

  lemma ModulesPrefix(inner: string)
    ensures "app/modules/" + inner == "app" + "/" + ("modules" + "/" + inner)
  {
    assert "app/modules/" == "app" + "/" + ("modules" + "/");
  }

  lemma TestsPart(f: Path)
    ensures Split(f)[0] == "tests" && EndsWith(f, ".py") <==> "tests/" <= f && EndsWith(f, ".py")
  {
    var rest := SplitJoins(f);
    if "tests/" <= f {
      SplitAtSlash("tests", f[6..]);
      assert f == "tests" + "/" + f[6..];
    }
  }

  /** The rule of a changed file, by where it lies: none of its tests, those of its module, the
      closure of a test-side file that is still there, and for anything else every test. */
  lemma RuleByPath(present: set<Path>, f: Path, m: string)
    ensures RuleOf(present, f) == Skip <==> HasNoTests(f)
    ensures RuleOf(present, f) == Module("tests/modules/" + m) && '/' !in m <==> !HasNoTests(f) && IsOfModule(f, m)
    ensures RuleOf(present, f) == TestSide <==> !HasNoTests(f) && IsTestSide(f) && f in present
    ensures RuleOf(present, f).Module? ==> exists n :: IsOfModule(f, n)
  {
    ModuleParts(f, m);
    TestsPart(f);
    if RuleOf(present, f).Module? {
      ModuleParts(f, Split(f)[2]);
      assert ("tests/modules/" + m)[14..] == m;
      assert ("tests/modules/" + Split(f)[2])[14..] == Split(f)[2];
    }
  }

  /** A module's name is its path without the suffix, with dots for slashes. */
  lemma ModuleNameIsDotted(stem: string, i: nat)
    ensures |ModuleName(stem + ".py")| == |stem|
    ensures i < |stem| ==> ModuleName(stem + ".py")[i] == if stem[i] == '/' then '.' else stem[i]
  {
    assert (stem + ".py")[|stem|..] == ".py" && (stem + ".py")[..|stem|] == stem;
    DottedAt(stem, i);
  }

  lemma {:induction false} DottedAt(s: string, i: nat)
    ensures |Dotted(s)| == |s|
    ensures i < |s| ==> Dotted(s)[i] == if s[i] == '/' then '.' else s[i]
  {
    if s != "" { DottedAt(s[1..], if i > 0 then i - 1 else 0); }
  }

  // The directory of a path and its last name.
  predicate IsNamed(path: Path, parent: Path, name: string) {
    '/' !in name && (path == parent + "/" + name || (path == name && parent == "."))
  }

  lemma {:induction false} NameOfPath(path: Path)
    ensures IsNamed(path, ParentAndName(path).0, ParentAndName(path).1)
  {
    if path != "" {
      var init, last := path[..|path| - 1], path[|path| - 1];
      assert path == init + [last];
      if last == '/' {
        assert path == init + "/" + "";
      } else {
        NameOfPath(init);
        var (parent, name) := ParentAndName(init);
        if init == parent + "/" + name { assert path == parent + "/" + (name + [last]); }
      }
    }
  }

  lemma {:induction false} ParentOfName(parent: Path, name: string)
    requires '/' !in name
    ensures ParentAndName(parent + "/" + name) == (parent, name)
    ensures ParentAndName(name) == (".", name)
  {
    var path := parent + "/" + name;
    if name == "" {
      assert path[..|path| - 1] == parent;
    } else {
      var init := name[..|name| - 1];
      ParentOfName(parent, init);
      assert path[..|path| - 1] == parent + "/" + init && path[|path| - 1] == name[|name| - 1];
      assert name[|name| - 1] in name && init + [name[|name| - 1]] == name;
    }
  }

  /** A test-side file adds its directory if it is a `conftest.py`, itself if its name starts with
      `test_`, and otherwise nothing. */
  lemma TargetByName(path: Path, parent: Path, name: string)
    requires IsNamed(path, parent, name)
    ensures TargetOf(path) == if name == "conftest.py" then Some(parent)
                              else if "test_" <= name then Some(path) else None
  {
    ParentOfName(parent, name);
  }

  /** `t` is called for: as the tests of a changed file's module, or by a test-side file that is
      still there and was changed or imports one that was, at any remove. */
  ghost predicate IsCalledFor(g: Graph, present: set<Path>, files: set<Path>, t: Path) {
    || (exists f, m :: f in files && !HasNoTests(f) && IsOfModule(f, m) && t == "tests/modules/" + m)
    || (exists path, parent, name ::
          && path in Closure(g, set f | f in files && !HasNoTests(f) && IsTestSide(f) && f in present)
          && IsNamed(path, parent, name)
          && ((name == "conftest.py" && t == parent) || ("test_" <= name && t == path)))
  }

  lemma TargetsAreCalledFor(g: Graph, present: set<Path>, files: set<Path>, t: Path)
    ensures t in Targets(g, present, files) <==> IsCalledFor(g, present, files, t)
  {
    var seeds := set f | f in files && !HasNoTests(f) && IsTestSide(f) && f in present;
    forall f ensures f in Seeds(present, files) <==> f in seeds { RuleByPath(present, f, ""); }
    assert Seeds(present, files) == seeds;
    ModulesAreCalledFor(present, files, t);
    NamesAreCalledFor(Closure(g, seeds), t);
  }

  lemma ModulesAreCalledFor(present: set<Path>, files: set<Path>, t: Path)
    ensures t in ModuleTargets(present, files) <==>
            exists f, m :: f in files && !HasNoTests(f) && IsOfModule(f, m) && t == "tests/modules/" + m
  {
    if t in ModuleTargets(present, files) {
      var f :| f in files && RuleOf(present, f) == Module(t);
      ModuleParts(f, Split(f)[2]);
    }
    if f, m :| f in files && !HasNoTests(f) && IsOfModule(f, m) && t == "tests/modules/" + m {
      RuleByPath(present, f, m);
    }
  }

  lemma NamesAreCalledFor(paths: set<Path>, t: Path)
    ensures t in PathTargets(paths) <==>
            exists path, parent, name ::
              && path in paths && IsNamed(path, parent, name)
              && ((name == "conftest.py" && t == parent) || ("test_" <= name && t == path))
  {
    if t in PathTargets(paths) {
      var path :| path in paths && TargetOf(path) == Some(t);
      NameOfPath(path);
    }
    if path, parent, name :| && path in paths && IsNamed(path, parent, name)
                             && ((name == "conftest.py" && t == parent) || ("test_" <= name && t == path)) {
      TargetByName(path, parent, name);
      assert "test_" <= name ==> name[0] == 't' && name != "conftest.py";
    }
  }

  // Not ignored, not of a module, and not a test-side file that is still there.
  ghost predicate IsOfNoRule(present: set<Path>, f: Path) {
    !HasNoTests(f) && (forall m :: !IsOfModule(f, m)) && !(IsTestSide(f) && f in present)
  }

  // Called for, and not under a package that is.
  ghost predicate IsKept(g: Graph, present: set<Path>, files: set<Path>, t: Path) {
    && IsCalledFor(g, present, files, t)
    && forall p :: IsCalledFor(g, present, files, p) && !EndsWith(p, ".py") ==> !(p + "/" <= t)
  }

  /** The whole selection, in terms of the paths. It is `ALL` if and only if some changed file fits
      no rule; otherwise nothing if nothing is called for, and else exactly the static guards and
      whatever is called for and not under a package that is. */
  lemma SelectionByPath(g: Graph, present: set<Path>, files: set<Path>, t: Path)
    ensures Selected(g, present, files).All? <==> exists f :: f in files && IsOfNoRule(present, f)
    ensures Selected(g, present, files).Nothing? ==> !IsCalledFor(g, present, files, t)
    ensures Selected(g, present, files).Paths? ==>
              && (exists u :: IsCalledFor(g, present, files, u))
              && (t in Selected(g, present, files).paths <==> IsKept(g, present, files, t) || t in ALWAYS)
  {
    UnclearByPath(present, files);
    NothingCalledFor(g, present, files);
    KeptByPath(g, present, files, t);
  }

  lemma UnclearByPath(present: set<Path>, files: set<Path>)
    ensures Unclear(present, files) <==> exists f :: f in files && IsOfNoRule(present, f)
  {
    forall f ensures RuleOf(present, f).Unknown? <==> IsOfNoRule(present, f) { UnknownByPath(present, f); }
  }

  lemma NothingCalledFor(g: Graph, present: set<Path>, files: set<Path>)
    ensures Targets(g, present, files) != {} <==> exists t :: IsCalledFor(g, present, files, t)
  {
    forall t ensures t in Targets(g, present, files) <==> IsCalledFor(g, present, files, t)
    {
      TargetsAreCalledFor(g, present, files, t);
    }
  }

  lemma UnknownByPath(present: set<Path>, f: Path)
    ensures RuleOf(present, f).Unknown? <==> IsOfNoRule(present, f)
  {
    RuleByPath(present, f, "");
    if RuleOf(present, f).Unknown? {
      forall m ensures !IsOfModule(f, m) { RuleByPath(present, f, m); }
    }
  }

  lemma KeptByPath(g: Graph, present: set<Path>, files: set<Path>, t: Path)
    ensures t in Kept(Targets(g, present, files)) <==> IsKept(g, present, files, t)
  {
    forall u ensures u in Targets(g, present, files) <==> IsCalledFor(g, present, files, u)
    {
      TargetsAreCalledFor(g, present, files, u);
    }
  }
}
