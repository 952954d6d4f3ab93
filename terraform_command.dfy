/** Selection and validation of the components of a run
    (src/terraform-command.js): the include/exclude filters, the git-diff
    selection and its dependency closure, the conversion of `dependsOn` path
    lists into fingerprint sets, the excluded-dependency issue lists and the
    dependency check that guards every scheduled run. */
module TerraformCommand {
  import opened Types
  import DependencyTable
  import CycleTheory
  import DependencyCycle

  /** A component of the extended configuration, as declared: `dependsOn` and
      `mapping` are lists of directory paths. A missing `mapping` is the empty
      list, which selects nothing either way. */
  datatype Component = Component(name: string, dependsOn: seq<Path>, mapping: seq<Path>, distributor: Backend)

  /** Fingerprint -> declared component (`getExtendedConfig()`). */
  type Config = map<Hash, Component>

  /** The command-line selection options. Regular expressions are the
      predicates they test names with. */
  datatype Options = Options(
    gitDiff: seq<string>,
    includeRegex: seq<string -> bool>,
    includes: seq<string>,
    excludeRegex: seq<string -> bool>,
    excludes: seq<string>)

  /** One entry of an issue list; the message text is not modelled. */
  datatype Issue =
    | MissingDependency(component: Hash, dependency: Hash)
    | ExcludedDependency(component: Hash, dependency: Hash)
    | ExcludedDependent(component: Hash, dependencies: seq<Hash>)

  /** The errors the command throws. */
  datatype CommandError =
    | TooManyCommits
    | MissingComponent(hash: Hash)
    | NoComponents
    | Issues(issues: set<Issue>)
    | DependencyCycle(names: seq<string>)

  // ---------------------------------------------------------------------
  // getConfig: the filters

  /** One active filter of `getConfig`. */
  datatype Check =
    | InGitDiff(hashes: set<Hash>)
    | MatchesSomeRegex(regexes: seq<string -> bool>)
    | NamedIn(names: seq<string>)
    | MatchesNoRegex(regexes: seq<string -> bool>)
    | NamedNotIn(names: seq<string>)

  /** The filter list of `getConfig` after `.filter(Boolean)`: a filter is
      active only when its option list is not empty. */
  function ActiveChecks(gitDiff: set<Hash>, o: Options): (checks: seq<Check>)
    ensures |checks| <= 5
    ensures gitDiff == {} && o.includeRegex == [] && o.includes == [] && o.excludeRegex == [] && o.excludes == []
            ==> checks == []
  {
    (if |gitDiff| > 0 then [InGitDiff(gitDiff)] else [])
    + (if |o.includeRegex| > 0 then [MatchesSomeRegex(o.includeRegex)] else [])
    + (if |o.includes| > 0 then [NamedIn(o.includes)] else [])
    + (if |o.excludeRegex| > 0 then [MatchesNoRegex(o.excludeRegex)] else [])
    + (if |o.excludes| > 0 then [NamedNotIn(o.excludes)] else [])
  }

  predicate SomeMatch(regexes: seq<string -> bool>, name: string)
  {
    exists i :: 0 <= i < |regexes| && regexes[i](name)
  }

  /** One filter applied to a component. */
  predicate Accepts(check: Check, hash: Hash, name: string)
  {
    match check
    case InGitDiff(hashes) => hash in hashes
    case MatchesSomeRegex(regexes) => SomeMatch(regexes, name)
    case NamedIn(names) => name in names
    case MatchesNoRegex(regexes) => !SomeMatch(regexes, name)
    case NamedNotIn(names) => name !in names
  }

  /** `filters.some(check => !check(hash))`. */
  function SomeRejects(checks: seq<Check>, hash: Hash, name: string): (b: bool)
    ensures b <==> exists i :: 0 <= i < |checks| && !Accepts(checks[i], hash, name)
  {
    if checks == [] then false
    else if !Accepts(checks[0], hash, name) then
      assert !Accepts(checks[0], hash, name);
      true
    else
      var rest := SomeRejects(checks[1..], hash, name);
      assert forall i :: 1 <= i < |checks| ==> checks[i] == checks[1..][i - 1];
      rest
  }

  /** The selection rule written as one conjunction: every active selection
      must accept the component. A selection is active when its list is not
      empty, so a git diff that selected nothing keeps every component. */
  predicate Survives(gitDiff: set<Hash>, o: Options, hash: Hash, name: string)
  {
    && (gitDiff == {} || hash in gitDiff)
    && (o.includeRegex == [] || SomeMatch(o.includeRegex, name))
    && (o.includes == [] || name in o.includes)
    && (o.excludeRegex == [] || !SomeMatch(o.excludeRegex, name))
    && (o.excludes == [] || name !in o.excludes)
  }

  /** A component is removed iff some active filter rejects it, that is iff
      it fails the conjunction. */
  lemma {:induction false} FiltersAreConjunction(gitDiff: set<Hash>, o: Options, hash: Hash, name: string)
    ensures SomeRejects(ActiveChecks(gitDiff, o), hash, name) <==> !Survives(gitDiff, o, hash, name)
  {
    var checks := ActiveChecks(gitDiff, o);
    if !Survives(gitDiff, o, hash, name) {
      var c: Check;
      if gitDiff != {} && hash !in gitDiff {
        c := InGitDiff(gitDiff);
      } else if o.includeRegex != [] && !SomeMatch(o.includeRegex, name) {
        c := MatchesSomeRegex(o.includeRegex);
      } else if o.includes != [] && name !in o.includes {
        c := NamedIn(o.includes);
      } else if o.excludeRegex != [] && SomeMatch(o.excludeRegex, name) {
        c := MatchesNoRegex(o.excludeRegex);
      } else {
        c := NamedNotIn(o.excludes);
      }
      assert c in checks && !Accepts(c, hash, name);
    } else {
      assert forall c :: c in checks ==> Accepts(c, hash, name);
    }
  }

  /** With no selection option given, every component survives. */
  lemma NoOptionsKeepEverything(o: Options, hash: Hash, name: string)
    requires o.includeRegex == [] && o.includes == [] && o.excludeRegex == [] && o.excludes == []
    ensures !SomeRejects(ActiveChecks({}, o), hash, name)
    ensures Survives({}, o, hash, name)
  {
  }

  /** `getConfig()`: delete every component that some active filter rejects;
      an empty result throws. `gitDiff` is what `getGitDiff()` returned. */
  method GetConfig(config: Config, gitDiff: set<Hash>, o: Options) returns (r: Result<Config, CommandError>)
    ensures r.Ok? ==> r.value.Keys <= config.Keys && r.value != map[]
    ensures r.Ok? ==> forall h :: h in r.value ==> r.value[h] == config[h]
    ensures r.Ok? ==> forall h :: h in config ==> (h in r.value <==> Survives(gitDiff, o, h, config[h].name))
    ensures r.Err? <==> forall h :: h in config ==> !Survives(gitDiff, o, h, config[h].name)
    ensures r.Err? ==> r.error == NoComponents
  {
    var checks := ActiveChecks(gitDiff, o);
    var result := config;
    var todo := config.Keys;
    while todo != {}
      invariant todo <= config.Keys
      invariant result.Keys <= config.Keys
      invariant forall h :: h in result ==> result[h] == config[h]
      invariant forall h :: h in todo ==> h in result
      invariant forall h :: h in config && h !in todo ==>
                  (h in result <==> Survives(gitDiff, o, h, config[h].name))
      decreases todo
    {
      var h :| h in todo;
      FiltersAreConjunction(gitDiff, o, h, config[h].name);
      if SomeRejects(checks, h, config[h].name) {
        result := result - {h};
      }
      todo := todo - {h};
    }
    if result == map[] {
      assert forall h :: h in config ==> h !in result;
      return Err(NoComponents);
    }
    return Ok(result);
  }

  // ---------------------------------------------------------------------
  // getGitDiff: the changed components and everything they depend on

  /** `diff.startsWith(dep)`. */
  predicate StartsWith(s: string, prefix: string)
  {
    |prefix| <= |s| && s[..|prefix|] == prefix
  }

  /** Some `mapping` directory of the component prefixes some changed file. */
  predicate Touched(c: Component, diffList: seq<Path>)
  {
    exists i, j :: 0 <= i < |c.mapping| && 0 <= j < |diffList| && StartsWith(diffList[j], c.mapping[i])
  }

  /** The components the diff touches directly: components only, none
      without a `mapping`, and none at all for an empty diff. */
  function Seeds(config: Config, diffList: seq<Path>): (seeds: set<Hash>)
    ensures seeds <= config.Keys
    ensures diffList == [] ==> seeds == {}
    ensures forall h :: h in config && config[h].mapping == [] ==> h !in seeds
  {
    set h | h in config && Touched(config[h], diffList)
  }

  /** Each changed file selects components on its own: the seeds of two diff
      lists together are the seeds of the one and of the other. */
  lemma SeedsOfAppend(config: Config, a: seq<Path>, b: seq<Path>)
    ensures Seeds(config, a + b) == Seeds(config, a) + Seeds(config, b)
  {
    forall h | h in config
      ensures Touched(config[h], a + b) <==> Touched(config[h], a) || Touched(config[h], b)
    {
      var c := config[h];
      if Touched(c, a + b) {
        var i, j :| 0 <= i < |c.mapping| && 0 <= j < |a + b| && StartsWith((a + b)[j], c.mapping[i]);
        if j < |a| {
          assert StartsWith(a[j], c.mapping[i]);
        } else {
          assert StartsWith(b[j - |a|], c.mapping[i]);
        }
      }
      if Touched(c, a) {
        var i, j :| 0 <= i < |c.mapping| && 0 <= j < |a| && StartsWith(a[j], c.mapping[i]);
        assert StartsWith((a + b)[j], c.mapping[i]);
      }
      if Touched(c, b) {
        var i, j :| 0 <= i < |c.mapping| && 0 <= j < |b| && StartsWith(b[j], c.mapping[i]);
        assert StartsWith((a + b)[|a| + j], c.mapping[i]);
      }
    }
  }

  /** Every dependency of a listed component is listed. */
  ghost predicate Closed(config: Config, md5: Path -> Hash, s: set<Hash>)
  {
    forall h, p :: h in s && h in config && p in config[h].dependsOn ==> md5(p) in s
  }

  /** `s` is a closed set containing `seeds`. */
  ghost predicate ClosedAbove(config: Config, md5: Path -> Hash, seeds: set<Hash>, s: set<Hash>)
  {
    seeds <= s && Closed(config, md5, s)
  }

  /** Every fingerprint the closure can ever reach: the components and the
      fingerprints of their declared dependencies. */
  ghost function Reachable(config: Config, md5: Path -> Hash): set<Hash>
  {
    config.Keys + set h, p | h in config && p in config[h].dependsOn :: md5(p)
  }

  /** `dependsOn.map(toMd5).filter(hash => !result.hasOwnProperty(hash))`:
      the filter runs over the whole mapped list before anything is added, so
      two paths with one fingerprint both pass. */
  function Unlisted(paths: seq<Path>, md5: Path -> Hash, listed: set<Hash>): (added: seq<Hash>)
    ensures |added| <= |paths|
    ensures forall x :: x in added <==> x !in listed && exists p :: p in paths && md5(p) == x
  {
    if paths == [] then []
    else
      var rest := Unlisted(paths[1..], md5, listed);
      assert forall p :: p in paths <==> p == paths[0] || p in paths[1..];
      if md5(paths[0]) !in listed then [md5(paths[0])] + rest else rest
  }

  lemma SmallerDifference(u: set<Hash>, a: set<Hash>, b: set<Hash>, x: Hash)
    requires a <= b && x in b && x !in a && x in u
    ensures |u - b| < |u - a|
  {
    assert u - b <= (u - a) - {x};
    DependencyTable.SubsetCardinality(u - b, (u - a) - {x});
  }

  /** Whatever one round of the worklist adds lies in every closed set above
      the seeds, and among the reachable fingerprints. */
  lemma ExpandStaysLeast(config: Config, md5: Path -> Hash, seeds: set<Hash>, result: set<Hash>,
                         h: Hash, added: seq<Hash>)
    requires h in result && h in config
    requires forall s :: ClosedAbove(config, md5, seeds, s) ==> result <= s
    requires forall x :: x in added <==> x !in result && exists p :: p in config[h].dependsOn && md5(p) == x
    ensures forall s :: ClosedAbove(config, md5, seeds, s) ==> result + Elements(added) <= s
    ensures Elements(added) <= Reachable(config, md5)
  {
    forall s | ClosedAbove(config, md5, seeds, s)
      ensures Elements(added) <= s
    {
      assert h in s;
    }
  }

  /** Every listed fingerprint that is no longer pending is a component
      whose dependencies are all listed. */
  ghost predicate Expanded(config: Config, md5: Path -> Hash, result: set<Hash>, pending: seq<Hash>)
  {
    forall x :: x in result && x !in pending ==>
      x in config && forall p :: p in config[x].dependsOn ==> md5(p) in result
  }

  /** Popping `h` and listing its unlisted dependencies keeps `Expanded`. */
  lemma ExpandKeepsExpanded(config: Config, md5: Path -> Hash, result: set<Hash>, pending: seq<Hash>,
                            h: Hash, added: seq<Hash>)
    requires pending != [] && h == pending[|pending| - 1] && h in config
    requires Expanded(config, md5, result, pending)
    requires forall x :: x in added <==> x !in result && exists p :: p in config[h].dependsOn && md5(p) == x
    ensures Expanded(config, md5, result + Elements(added), pending[..|pending| - 1] + added)
  {
    var rest := pending[..|pending| - 1];
    assert forall x :: x in pending <==> x in rest || x == h;
    forall x | x in result + Elements(added) && x !in rest + added
      ensures x in config && forall p :: p in config[x].dependsOn ==> md5(p) in result + Elements(added)
    {
      if x != h {
        assert x in result && x !in pending;
      }
    }
  }

  /** The elements of a set, in some order. */
  method ListOf(s: set<Hash>) returns (l: seq<Hash>)
    ensures Elements(l) == s && |l| == |s|
  {
    l := [];
    var todo := s;
    while todo != {}
      invariant todo <= s
      invariant Elements(l) == s - todo
      invariant |l| + |todo| == |s|
      decreases todo
    {
      var x :| x in todo;
      assert Elements(l + [x]) == Elements(l) + {x};
      l := l + [x];
      todo := todo - {x};
    }
  }

  /** `getGitDiff()`: no commits selects nothing, more than two throw;
      otherwise the touched components and, by a worklist that pops the last
      entry, every component they transitively depend on. Popping a
      fingerprint that is not a component throws (a TypeError in the source).
      `diffList` is what git reports for `commits`. The order of the listed
      keys is not modelled. */
  method GetGitDiff(config: Config, md5: Path -> Hash, commits: seq<string>, diffList: seq<Path>)
    returns (r: Result<set<Hash>, CommandError>)
    ensures |commits| == 0 ==> r == Ok({})
    ensures |commits| > 2 ==> r == Err(TooManyCommits)
    ensures 0 < |commits| <= 2 && r.Ok? ==>
              && Seeds(config, diffList) <= r.value <= config.Keys
              && Closed(config, md5, r.value)
              && forall s :: ClosedAbove(config, md5, Seeds(config, diffList), s) ==> r.value <= s
    ensures 0 < |commits| <= 2 && r.Err? ==>
              && r.error.MissingComponent? && r.error.hash !in config
              && forall s :: ClosedAbove(config, md5, Seeds(config, diffList), s) ==> r.error.hash in s
  {
    if |commits| == 0 {
      return Ok({});
    } else if |commits| > 2 {
      return Err(TooManyCommits);
    }
    ghost var universe := Reachable(config, md5);
    var seeds := Seeds(config, diffList);
    var result := seeds;
    var newHashes := ListOf(seeds);
    while newHashes != []
      invariant seeds <= result <= universe
      invariant Elements(newHashes) <= result
      invariant Expanded(config, md5, result, newHashes)
      invariant forall s :: ClosedAbove(config, md5, seeds, s) ==> result <= s
      decreases |universe - result|, |newHashes|
    {
      var h := newHashes[|newHashes| - 1];
      ghost var pending := newHashes;
      newHashes := newHashes[..|newHashes| - 1];
      if h !in config {
        return Err(MissingComponent(h));
      }
      var added := Unlisted(config[h].dependsOn, md5, result);
      ExpandStaysLeast(config, md5, seeds, result, h, added);
      ExpandKeepsExpanded(config, md5, result, pending, h, added);
      if added != [] {
        SmallerDifference(universe, result, result + Elements(added), added[0]);
      }
      newHashes := newHashes + added;
      result := result + Elements(added);
    }
    return Ok(result);
  }

  // ---------------------------------------------------------------------
  // getConfigObject: path lists -> fingerprint sets

  /** The fingerprints of a list of dependency paths. */
  function HashesOf(paths: seq<Path>, md5: Path -> Hash): set<Hash>
  {
    set p | p in paths :: md5(p)
  }

  /** The scheduler's record of a component. */
  function AsNode(c: Component, md5: Path -> Hash): Node
  {
    Node(c.name, HashesOf(c.dependsOn, md5), c.distributor)
  }

  /** One issue per component of the selection and dependency fingerprint
      that is not a component of the whole configuration. */
  function MissingDependencies(full: Config, selected: Config, md5: Path -> Hash): (issues: set<Issue>)
    ensures forall i :: i in issues ==> i.MissingDependency? && i.component in selected && i.dependency !in full
    ensures issues == {} <==> forall h, p :: h in selected && p in selected[h].dependsOn ==> md5(p) in full
  {
    var issues := set h, p | h in selected && p in selected[h].dependsOn && md5(p) !in full :: MissingDependency(h, md5(p));
    assert forall h, p :: h in selected && p in selected[h].dependsOn ==>
             md5(p) in full || MissingDependency(h, md5(p)) in issues;
    issues
  }

  /** `getConfigObject()`: every selected component with its `dependsOn`
      turned into the set of fingerprints; any dependency that is not a
      component of the whole configuration throws, listing all of them.
      `selected` is what `getConfig()` returned. */
  function GetConfigObject(full: Config, md5: Path -> Hash, selected: Config): (r: Result<Tree, CommandError>)
    ensures r.Ok? <==> forall h, p :: h in selected && p in selected[h].dependsOn ==> md5(p) in full
    ensures r.Ok? ==> r.value.Keys == selected.Keys
    ensures r.Ok? ==> forall h :: h in selected ==>
              && r.value[h].name == selected[h].name
              && r.value[h].distributor == selected[h].distributor
              && forall d :: d in r.value[h].dependsOn <==> exists p :: p in selected[h].dependsOn && md5(p) == d
    ensures r.Err? ==> r.error.Issues? && r.error.issues != {}
    ensures r.Err? ==> forall h, d :: MissingDependency(h, d) in r.error.issues <==>
              h in selected && d !in full && exists p :: p in selected[h].dependsOn && md5(p) == d
  {
    var issues := MissingDependencies(full, selected, md5);
    if issues != {} then
      Err(Issues(issues))
    else
      Ok(map h | h in selected :: AsNode(selected[h], md5))
  }

  // ---------------------------------------------------------------------
  // Excluded-dependency issues

  /** `getDependencyIssues(config)`: one issue per component of the run and
      dependency of it that is not part of the run. */
  function DependencyIssues(config: Tree): (issues: set<Issue>)
    ensures forall i :: i in issues ==>
              && i.ExcludedDependency? && i.component in config
              && i.dependency in config[i.component].dependsOn && i.dependency !in config
    ensures forall h, d :: h in config && d in config[h].dependsOn && d !in config ==> ExcludedDependency(h, d) in issues
  {
    set h, d | h in config && d in config[h].dependsOn && d !in config :: ExcludedDependency(h, d)
  }

  /** `dependsOn.map(toMd5).filter(it => config.hasOwnProperty(it))`. */
  function InsideRun(paths: seq<Path>, md5: Path -> Hash, config: Tree): (inside: seq<Hash>)
    ensures |inside| <= |paths|
    ensures forall x :: x in inside <==> x in config && exists p :: p in paths && md5(p) == x
  {
    if paths == [] then []
    else
      var rest := InsideRun(paths[1..], md5, config);
      assert forall p :: p in paths <==> p == paths[0] || p in paths[1..];
      if md5(paths[0]) in config then [md5(paths[0])] + rest else rest
  }

  /** `getReverseDependencyIssues(config)`: one issue per component outside
      the run that depends on at least one component of the run, listing
      those. */
  function ReverseDependencyIssues(full: Config, config: Tree, md5: Path -> Hash): (issues: set<Issue>)
    ensures forall i :: i in issues ==>
              && i.ExcludedDependent? && i.component in full && i.component !in config && i.dependencies != []
              && forall d :: d in i.dependencies <==>
                   d in config && exists p :: p in full[i.component].dependsOn && md5(p) == d
    ensures forall i, j :: i in issues && j in issues && i.component == j.component ==> i == j
    ensures forall h, p :: h in full && h !in config && p in full[h].dependsOn && md5(p) in config ==>
              ExcludedDependent(h, InsideRun(full[h].dependsOn, md5, config)) in issues
  {
    var issues := set h | h in full && h !in config && InsideRun(full[h].dependsOn, md5, config) != []
      :: ExcludedDependent(h, InsideRun(full[h].dependsOn, md5, config));
    assert forall h, p :: h in full && h !in config && p in full[h].dependsOn && md5(p) in config ==>
             md5(p) in InsideRun(full[h].dependsOn, md5, config);
    issues
  }

  /** No forward issue iff the run is closed under `dependsOn`, iff the
      REVERSE dependency table can be built. */
  lemma NoForwardIssuesIffClosed(config: Tree)
    ensures DependencyIssues(config) == {} <==>
              forall h, d :: h in config && d in config[h].dependsOn ==> d in config
    ensures DependencyIssues(config) == {} <==> !DependencyTable.Dangling(config)
  {
    if h, d :| h in config && d in config[h].dependsOn && d !in config {
      assert ExcludedDependency(h, d) in DependencyIssues(config);
    }
  }

  /** No reverse issue iff no component outside the run depends on one inside
      it: the run is closed under dependents. */
  lemma NoReverseIssuesIffClosedUnderDependents(full: Config, config: Tree, md5: Path -> Hash)
    ensures ReverseDependencyIssues(full, config, md5) == {} <==>
              forall h, p :: h in full && h !in config && p in full[h].dependsOn ==> md5(p) !in config
  {
    if h, p :| h in full && h !in config && p in full[h].dependsOn && md5(p) in config {
      assert md5(p) in InsideRun(full[h].dependsOn, md5, config);
      assert ExcludedDependent(h, InsideRun(full[h].dependsOn, md5, config)) in ReverseDependencyIssues(full, config, md5);
    }
    if ReverseDependencyIssues(full, config, md5) != {} {
      var x :| x in ReverseDependencyIssues(full, config, md5);
      var h :| h in full && h !in config && InsideRun(full[h].dependsOn, md5, config) != []
               && x == ExcludedDependent(h, InsideRun(full[h].dependsOn, md5, config));
      var y := InsideRun(full[h].dependsOn, md5, config)[0];
      assert y in InsideRun(full[h].dependsOn, md5, config);
      var p :| p in full[h].dependsOn && md5(p) == y;
    }
  }

  // ---------------------------------------------------------------------
  // checkDependencies

  /** The issue lists `checkDependencies` collects for an orientation; an
      unknown orientation collects none. */
  function IssuesFor(config: Tree, full: Config, md5: Path -> Hash, direction: Direction): (issues: set<Issue>)
    ensures forall i :: i in issues ==> !i.MissingDependency?
    ensures forall i :: i in issues && i.ExcludedDependency? ==> direction == Forward || direction == Bidirectional
    ensures forall i :: i in issues && i.ExcludedDependent? ==> direction == Reverse || direction == Bidirectional
    ensures direction == Forward || direction == Bidirectional ==> DependencyIssues(config) <= issues
    ensures direction == Reverse || direction == Bidirectional ==> ReverseDependencyIssues(full, config, md5) <= issues
  {
    match direction
    case Forward => DependencyIssues(config)
    case Reverse => ReverseDependencyIssues(full, config, md5)
    case Bidirectional => DependencyIssues(config) + ReverseDependencyIssues(full, config, md5)
    case Unset => {}
  }

  /** A BIDIRECTIONAL check passes iff both one-way checks pass, and a
      passing FORWARD check guarantees that the REVERSE table builds. */
  lemma BidirectionalIsBoth(config: Tree, full: Config, md5: Path -> Hash)
    ensures IssuesFor(config, full, md5, Bidirectional) == {} <==>
              IssuesFor(config, full, md5, Forward) == {} && IssuesFor(config, full, md5, Reverse) == {}
    ensures IssuesFor(config, full, md5, Forward) == {} ==>
              DependencyTable.TableSpec(config, Reverse).Some?
  {
    NoForwardIssuesIffClosed(config);
  }

  /** `checkDependencies(config, direction)`: the issues of the orientation
      throw before the cycle check runs; a cycle throws with the names of
      its components. */
  method CheckDependencies(config: Tree, full: Config, md5: Path -> Hash, direction: Direction)
    returns (r: Result<(), CommandError>)
    ensures IssuesFor(config, full, md5, direction) != {} ==>
              r == Err(Issues(IssuesFor(config, full, md5, direction)))
    ensures IssuesFor(config, full, md5, direction) == {} ==>
              (r.Ok? <==> !CycleTheory.HasCycle(config))
    ensures IssuesFor(config, full, md5, direction) == {} && r.Err? ==>
              r.error.DependencyCycle? &&
              exists c :: CycleTheory.IsCycle(config, c) && (forall i :: 0 <= i < |c| ==> c[i] in config)
                          && r.error.names == CycleTheory.NamesOf(config, c)
  {
    var issues := IssuesFor(config, full, md5, direction);
    if issues != {} {
      return Err(Issues(issues));
    }
    var names, cycle := DependencyCycle.GetDependencyCycle(config);
    if |names| > 0 {
      return Err(DependencyCycle(names));
    }
    return Ok(());
  }

  // ---------------------------------------------------------------------
  // _getNonExistingComponents

  /** Some component of the configuration carries this name. */
  predicate IsComponentName(full: Config, name: string)
  {
    exists h :: h in full && full[h].name == name
  }

  /** `_getNonExistingComponents()`: the `include` names, in order, that no
      component carries. */
  function NonExistingComponents(full: Config, includes: seq<string>): (missing: seq<string>)
    ensures |missing| <= |includes|
    ensures forall x :: x in missing <==> x in includes && !IsComponentName(full, x)
  {
    if includes == [] then []
    else
      var rest := NonExistingComponents(full, includes[1..]);
      assert forall x :: x in includes <==> x == includes[0] || x in includes[1..];
      if IsComponentName(full, includes[0]) then rest else [includes[0]] + rest
  }
}
