/** Cycles of the `dependsOn` graph of a run and the state invariant of the
    three-colour search that looks for them, as values. */
module CycleTheory {
  import opened Types

  datatype Color = White | Gray | Black

  /** `c` is a cycle of the run: every listed component depends on the next
      one, and the last depends on the first. Dependencies that are not part of
      the run are not edges. */
  ghost predicate IsCycle(config: Tree, c: seq<Hash>)
  {
    && |c| > 0
    && Chain(config, c)
    && c[0] in config[c[|c| - 1]].dependsOn
  }

  ghost predicate HasCycle(config: Tree)
  {
    exists c :: IsCycle(config, c)
  }

  /** Every element is a component of the run and depends on its successor. */
  ghost predicate Chain(config: Tree, p: seq<Hash>)
  {
    && (forall i :: 0 <= i < |p| ==> p[i] in config)
    && (forall i, j :: 0 <= i && j == i + 1 && j < |p| ==> p[j] in config[p[i]].dependsOn)
  }

  /** The display names of a list of components. */
  function NamesOf(config: Tree, c: seq<Hash>): (names: seq<string>)
    requires forall i :: 0 <= i < |c| ==> c[i] in config
    ensures |names| == |c|
    ensures forall i :: 0 <= i < |c| ==> names[i] == config[c[i]].name
  {
    if c == [] then [] else [config[c[0]].name] + NamesOf(config, c[1..])
  }

  /** `path.findIndex(it => it === x)`: the first position of `x`. */
  function IndexOf(s: seq<Hash>, x: Hash): (i: nat)
    requires x in s
    ensures i < |s| && s[i] == x
    ensures forall j :: 0 <= j < i ==> s[j] != x
  {
    if s[0] == x then 0 else 1 + IndexOf(s[1..], x)
  }

  /** Along a chain whose finishing times strictly fall at every edge, the
      first element finishes after every later one. */
  lemma {:induction false} FinishFallsAlongChain(config: Tree, finish: map<Hash, nat>, c: seq<Hash>, k: nat)
    requires Chain(config, c)
    requires forall i :: 0 <= i < |c| ==> c[i] in finish
    requires forall i, j :: 0 <= i && j == i + 1 && j < |c| ==> finish[c[j]] < finish[c[i]]
    requires 0 < k < |c|
    ensures finish[c[k]] < finish[c[0]]
  {
    if k > 1 {
      FinishFallsAlongChain(config, finish, c, k - 1);
    }
  }

  /** The names of a suffix are the suffix of the names. */
  lemma NamesOfSuffix(config: Tree, c: seq<Hash>, i: nat)
    requires forall j :: 0 <= j < |c| ==> c[j] in config
    requires i <= |c|
    ensures NamesOf(config, c)[i..] == NamesOf(config, c[i..])
  {
    var a, b := NamesOf(config, c)[i..], NamesOf(config, c[i..]);
    assert forall j :: 0 <= j < |a| ==> a[j] == config[c[i + j]].name == b[j];
  }

  /** If every component of the run finished after all of its dependencies in
      the run, the run has no cycle. */
  lemma NoCycleUnderFinishOrder(config: Tree, finish: map<Hash, nat>)
    requires forall k :: k in config ==> k in finish
    requires forall k, d :: k in config && d in config[k].dependsOn && d in config ==> finish[d] < finish[k]
    ensures !HasCycle(config)
  {
    if c :| IsCycle(config, c) {
      if |c| > 1 {
        FinishFallsAlongChain(config, finish, c, |c| - 1);
      }
      assert false;
    }
  }

  /** A path that ends on a component it already visited yields a cycle: the
      part after the first visit. */
  lemma {:induction false} SuffixOfClosedPathIsCycle(config: Tree, path: seq<Hash>)
    requires |path| >= 2 && Chain(config, path)
    requires path[|path| - 1] in path[..|path| - 1]
    ensures IndexOf(path, path[|path| - 1]) < |path| - 1
    ensures IsCycle(config, path[IndexOf(path, path[|path| - 1]) + 1..])
  {
    var index := IndexOf(path, path[|path| - 1]);
    var j :| 0 <= j < |path| - 1 && path[..|path| - 1][j] == path[|path| - 1];
    assert path[j] == path[|path| - 1];
    assert index <= j < |path| - 1;
    var c := path[index + 1..];
    ChainSuffix(config, path, index + 1);
    assert |c| > 0 && c[|c| - 1] == path[index] && c[0] == path[index + 1];
    assert path[index + 1] in config[path[index]].dependsOn;
    assert IsCycle(config, c);
  }

  /** Every suffix of a chain is a chain. */
  lemma ChainSuffix(config: Tree, p: seq<Hash>, lo: nat)
    requires Chain(config, p) && lo <= |p|
    ensures Chain(config, p[lo..])
  {
    var c := p[lo..];
    forall i, j | 0 <= i && j == i + 1 && j < |c|
      ensures c[j] in config[c[i]].dependsOn
    {
      assert c[j] == p[lo + j] && c[i] == p[lo + i];
    }
  }

  /** The state of a search that has not found a cycle yet: the GRAY
      components are exactly the ones on the path, the path is a chain without
      repetitions, and every BLACK component finished after all of its
      dependencies in the run, which are BLACK too. */
  ghost predicate Unfinished(config: Tree, color: map<Hash, Color>, path: seq<Hash>,
                             finish: map<Hash, nat>, clock: nat)
  {
    && color.Keys == config.Keys
    && Chain(config, path)
    && Distinct(path)
    && (forall k :: k in color ==> (color[k] == Gray <==> k in path))
    && (forall k :: k in color && color[k] == Black ==> k in finish && finish[k] < clock)
    && (forall k, d :: k in color && color[k] == Black && d in config[k].dependsOn && d in config ==>
          color[d] == Black && finish[d] < finish[k])
  }

  /** BLACK components are never on the path. */
  lemma BlackNeverOnPath(config: Tree, color: map<Hash, Color>, path: seq<Hash>,
                         finish: map<Hash, nat>, clock: nat)
    requires Unfinished(config, color, path, finish, clock)
    ensures forall i :: 0 <= i < |path| ==> path[i] in color && color[path[i]] == Gray
  {
  }

  function WhitesOf(color: map<Hash, Color>): set<Hash>
  {
    set k | k in color && color[k] == White
  }

  /** Entering a WHITE dependency of the top of the path keeps the search
      state consistent. */
  lemma EnterKeepsUnfinished(config: Tree, color: map<Hash, Color>, path: seq<Hash>,
                             finish: map<Hash, nat>, clock: nat, hash: Hash)
    requires Unfinished(config, color, path, finish, clock)
    requires hash in color && color[hash] == White
    requires |path| > 0 ==> hash in config[path[|path| - 1]].dependsOn
    ensures Unfinished(config, color[hash := Gray], path + [hash], finish, clock)
    ensures WhitesOf(color[hash := Gray]) == WhitesOf(color) - {hash}
  {
    var p := path + [hash];
    assert forall i :: 0 <= i < |path| ==> p[i] == path[i];
  }

  /** Leaving a component all of whose dependencies in the run are BLACK keeps
      the search state consistent. */
  lemma LeaveKeepsUnfinished(config: Tree, color: map<Hash, Color>, path: seq<Hash>,
                             finish: map<Hash, nat>, clock: nat, hash: Hash)
    requires Unfinished(config, color, path, finish, clock)
    requires |path| > 0 && path[|path| - 1] == hash
    requires hash in color && color[hash] == Gray
    requires forall d :: d in config[hash].dependsOn && d in config ==> color[d] == Black
    ensures Unfinished(config, color[hash := Black], path[..|path| - 1], finish[hash := clock], clock + 1)
  {
    var q := path[..|path| - 1];
    assert forall i :: 0 <= i < |q| ==> q[i] == path[i];
    assert hash !in q;
  }

  /** Over a whole visit of `hash`, which was WHITE on entry and ends BLACK,
      the WHITE components strictly decrease and BLACK ones stay BLACK. */
  lemma VisitShrinksWhites(entry: map<Hash, Color>, color: map<Hash, Color>, hash: Hash)
    requires entry.Keys == color.Keys && hash in entry && entry[hash] == White
    requires WhitesOf(color) <= WhitesOf(entry) - {hash}
    requires forall k :: k in entry && entry[k] == Black ==> color[k] == Black
    ensures WhitesOf(color[hash := Black]) < WhitesOf(entry)
    ensures forall k :: k in entry && entry[k] == Black ==> color[hash := Black][k] == Black
  {
    assert WhitesOf(color[hash := Black]) <= WhitesOf(color);
    assert hash in WhitesOf(entry);
  }

  /** A finished search, in which every component of the run is BLACK, proves
      the run free of cycles. */
  lemma AllBlackHasNoCycle(config: Tree, color: map<Hash, Color>, path: seq<Hash>,
                           finish: map<Hash, nat>, clock: nat)
    requires Unfinished(config, color, path, finish, clock)
    requires forall k :: k in config ==> color[k] == Black
    ensures !HasCycle(config)
  {
    NoCycleUnderFinishOrder(config, finish);
  }
}

/** Cycle detection over the components of a run
    (`_getDependencyCycle` and `_depthFirstSearch` in src/terraform-command.js):
    a three-colour depth-first search that shares one colour map and one path
    array between its recursive calls. */
module DependencyCycle {
  import opened Types
  import opened CycleTheory

  /** The shared state of one search: `color` and `path` of `_getDependencyCycle`.
      `finish` and `clock` are proof-only finishing times. */
  class CycleSearch {
    const config: Tree
    var color: map<Hash, Color>
    var path: seq<Hash>
    ghost var finish: map<Hash, nat>
    ghost var clock: nat

    ghost predicate Searching()
      reads this
    {
      Unfinished(config, color, path, finish, clock)
    }

    /** The search stopped on a cycle: the path is a chain that ends on a
        component it already passed through. */
    ghost predicate Found()
      reads this
    {
      && |path| >= 2
      && Chain(config, path)
      && path[|path| - 1] in path[..|path| - 1]
    }

    ghost function Whites(): set<Hash>
      reads this
    {
      WhitesOf(color)
    }

    /** `keys.forEach(key => { color[key] = WHITE; })` with an empty path. */
    constructor (config: Tree)
      ensures this.config == config
      ensures Searching() && path == []
      ensures forall k :: k in config ==> color[k] == White
    {
      this.config := config;
      color := map k | k in config :: White;
      path := [];
      finish := map[];
      clock := 0;
    }

    /** `_depthFirstSearch(hash)`: colour `hash` GRAY and push it, explore its
        dependencies, and with no cycle through `hash` colour it BLACK and pop
        it. */
    method DepthFirstSearch(hash: Hash) returns (found: bool)
      requires Searching()
      requires hash in color && color[hash] == White
      requires |path| > 0 ==> hash in config[path[|path| - 1]].dependsOn
      modifies this
      ensures found ==> Found()
      ensures !found ==> Searching() && path == old(path) && color[hash] == Black
      ensures !found ==> forall k :: k in old(color) && old(color)[k] == Black ==> color[k] == Black
      ensures !found ==> Whites() < old(Whites())
      decreases Whites(), 1
    {
      ghost var entry := color;
      Enter(hash);
      found := ExploreDependencies(hash);
      if !found {
        VisitShrinksWhites(entry, color, hash);
        Leave(hash);
      }
    }

    /** `color[hash] = GRAY; path.push(hash)`. */
    method Enter(hash: Hash)
      requires Searching()
      requires hash in color && color[hash] == White
      requires |path| > 0 ==> hash in config[path[|path| - 1]].dependsOn
      modifies this
      ensures Searching() && path == old(path) + [hash] && color == old(color)[hash := Gray]
      ensures Whites() == old(Whites()) - {hash}
    {
      EnterKeepsUnfinished(config, color, path, finish, clock, hash);
      color := color[hash := Gray];
      path := path + [hash];
    }

    /** `color[hash] = BLACK; path.pop()`, once every dependency is BLACK. */
    method Leave(hash: Hash)
      requires Searching()
      requires |path| > 0 && path[|path| - 1] == hash
      requires hash in color && color[hash] == Gray
      requires forall d :: d in config[hash].dependsOn && d in config ==> color[d] == Black
      modifies this
      ensures Searching()
      ensures path == old(path)[..|old(path)| - 1] && color == old(color)[hash := Black]
    {
      LeaveKeepsUnfinished(config, color, path, finish, clock, hash);
      color, path, finish, clock := color[hash := Black], path[..|path| - 1], finish[hash := clock], clock + 1;
    }

    /** The `for (const key in dependsOn)` loop of `_depthFirstSearch`. */
    method ExploreDependencies(hash: Hash) returns (found: bool)
      requires Searching()
      requires |path| > 0 && path[|path| - 1] == hash && hash in color && color[hash] == Gray
      modifies this
      ensures found ==> Found()
      ensures !found ==> Searching() && path == old(path) && color[hash] == Gray
      ensures !found ==> forall d :: d in config[hash].dependsOn && d in config ==> color[d] == Black
      ensures !found ==> forall k :: k in old(color) && old(color)[k] == Black ==> color[k] == Black
      ensures !found ==> Whites() <= old(Whites())
      decreases Whites(), 3
    {
      var deps := config[hash].dependsOn;
      while deps != {}
        invariant deps <= config[hash].dependsOn
        invariant Searching()
        invariant path == old(path) && color[hash] == Gray
        invariant forall d :: d in config[hash].dependsOn && d !in deps && d in config ==> color[d] == Black
        invariant forall k :: k in old(color) && old(color)[k] == Black ==> color[k] == Black
        invariant Whites() <= old(Whites())
        decreases deps
      {
        var key :| key in deps;
        deps := deps - {key};
        found := VisitDependency(hash, key);
        if found {
          return;
        }
      }
      found := false;
    }

    /** One round of that loop: recurse into a WHITE dependency; a GRAY one
        closes a cycle and is pushed; a BLACK one and a dependency outside the
        run are skipped. */
    method VisitDependency(hash: Hash, key: Hash) returns (found: bool)
      requires Searching()
      requires |path| > 0 && path[|path| - 1] == hash && hash in color && color[hash] == Gray
      requires key in config[hash].dependsOn
      modifies this
      ensures found ==> Found()
      ensures !found ==> Searching() && path == old(path) && color[hash] == Gray
      ensures !found && key in config ==> color[key] == Black
      ensures !found ==> forall k :: k in old(color) && old(color)[k] == Black ==> color[k] == Black
      ensures !found ==> Whites() <= old(Whites())
      decreases Whites(), 2
    {
      found := false;
      if key in color && color[key] == White {
        found := DepthFirstSearch(key);
        if found {
          return;
        }
      }
      if key in color && color[key] == Gray {
        path := path + [key];
        found := true;
      }
    }

    /** The `for (const key in config)` loop of `_getDependencyCycle`: start a
        search from every component that is not BLACK yet, until one finds a
        cycle. */
    method SearchEveryComponent() returns (found: bool)
      requires Searching() && path == []
      modifies this
      ensures found ==> Found()
      ensures !found ==> Searching() && forall k :: k in config ==> color[k] == Black
    {
      var keys := config.Keys;
      found := false;
      while keys != {} && !found
        invariant keys <= config.Keys
        invariant !found ==> Searching() && path == []
        invariant !found ==> forall k :: k in config && k !in keys ==> color[k] == Black
        invariant found ==> Found()
        decreases keys
      {
        var key :| key in keys;
        ghost var visited, before := config.Keys - keys, color;
        keys := keys - {key};
        if color[key] != Black {
          found := DepthFirstSearch(key);
          if !found {
            forall k | k in visited
              ensures color[k] == Black
            {
              assert k in before && before[k] == Black;
            }
          }
        }
      }
    }
  }

  /** The report of `_getDependencyCycle` once the path closes on itself: the
      components after the first visit of the repeated one. */
  method CycleOnPath(config: Tree, path: seq<Hash>) returns (names: seq<string>, ghost cycle: seq<Hash>)
    requires |path| >= 2 && Chain(config, path)
    requires path[|path| - 1] in path[..|path| - 1]
    ensures IsCycle(config, cycle)
    ensures forall i :: 0 <= i < |cycle| ==> cycle[i] in config
    ensures names == NamesOf(config, cycle) && |names| > 0
  {
    SuffixOfClosedPathIsCycle(config, path);
    var index := IndexOf(path, path[|path| - 1]);
    cycle := path[index + 1..];
    names := NamesOf(config, path)[index + 1..];
    NamesOfSuffix(config, path, index + 1);
  }

  /** `_getDependencyCycle(config)`: search from every component that is not
      BLACK yet until a cycle turns up; report the part of the path after the
      first visit of the repeated component, as names. The ghost `cycle` is the
      same list as fingerprints. */
  method GetDependencyCycle(config: Tree) returns (names: seq<string>, ghost cycle: seq<Hash>)
    ensures |names| > 0 <==> HasCycle(config)
    ensures cycle != [] ==> IsCycle(config, cycle)
    ensures cycle == [] ==> !HasCycle(config)
    ensures forall i :: 0 <= i < |cycle| ==> cycle[i] in config
    ensures names == NamesOf(config, cycle)
  {
    var search := new CycleSearch(config);
    var found := search.SearchEveryComponent();
    if found {
      names, cycle := CycleOnPath(config, search.path);
    } else {
      AllBlackHasNoCycle(config, search.color, search.path, search.finish, search.clock);
      cycle := [];
      names := [];
    }
  }
}
