/** The scheduler's adjacency table: for every component of the run, the set of
    components it still waits on. Both distributors build it the same way
    (src/helpers/distributors/distributor.js:74-100 and
    src/helpers/distributor.js:29-55) and relax it the same way. */
module DependencyTable {
  import opened Types

  type Table = map<Hash, set<Hash>>

  /** What the builder produces, or None where the source throws a TypeError:
      in REVERSE orientation `result[hash][key] = null` fails when `hash` is not a
      component of the run. */
  ghost function TableSpec(config: Tree, direction: Direction): (r: Option<Table>)
    ensures r.Some? ==> r.value.Keys == config.Keys
    ensures r.None? <==> direction == Reverse && Dangling(config)
  {
    match direction
    case Forward => Some(map k | k in config :: config[k].dependsOn)
    case Reverse =>
      if Dangling(config) then None
      else Some(map h | h in config :: Dependents(config, h))
    case _ => Some(map k | k in config :: {})
  }

  /** Some component of the run depends on a component outside it. */
  ghost predicate Dangling(config: Tree)
  {
    exists k, d :: k in config && d in config[k].dependsOn && d !in config
  }

  /** The components of the run that depend on `h`. */
  function Dependents(config: Tree, h: Hash): set<Hash>
  {
    set k | k in config && h in config[k].dependsOn
  }

  /** `buildDependencyTable(direction)`: one empty entry per component, then
      the forward copy or the inverted edges. */
  method BuildDependencyTable(config: Tree, direction: Direction) returns (r: Option<Table>)
    ensures r == TableSpec(config, direction)
  {
    var result: Table := map k | k in config :: {};
    match direction {
      case Forward =>
        var t := CopyDependencies(config, result);
        return Some(t);
      case Reverse =>
        r := InvertDependencies(config, result);
      case _ =>
        return Some(result);
    }
  }

  /** The FORWARD loop: `Object.assign(result[key], config[key].dependsOn)` for
      every key. */
  method CopyDependencies(config: Tree, empty: Table) returns (result: Table)
    requires empty == map k | k in config :: {}
    ensures result == map k | k in config :: config[k].dependsOn
  {
    result := empty;
    var todo := config.Keys;
    while todo != {}
      invariant todo <= config.Keys
      invariant result.Keys == config.Keys
      invariant forall k :: k in config && k !in todo ==> result[k] == config[k].dependsOn
      invariant forall k :: k in todo ==> result[k] == {}
      decreases todo
    {
      var key :| key in todo;
      result := result[key := result[key] + config[key].dependsOn];
      todo := todo - {key};
    }
  }

  /** The REVERSE loop: every edge key -> hash is recorded as `result[hash][key]`. */
  method InvertDependencies(config: Tree, empty: Table) returns (r: Option<Table>)
    requires empty == map k | k in config :: {}
    ensures r == TableSpec(config, Reverse)
  {
    var result := empty;
    var todo := config.Keys;
    while todo != {}
      invariant todo <= config.Keys
      invariant result.Keys == config.Keys
      invariant forall h :: h in config ==> result[h] == DependentsAmong(config, h, config.Keys - todo)
      invariant forall k, d :: k in config && k !in todo && d in config[k].dependsOn ==> d in config
      decreases todo
    {
      var key :| key in todo;
      var next := InvertEdgesOf(config, result, key);
      if next.None? {
        return None;
      }
      DependentsAmongGrow(config, config.Keys - todo, key);
      result := next.value;
      todo := todo - {key};
    }
    assert !Dangling(config);
    assert config.Keys - todo == config.Keys;
    forall h | h in config
      ensures result[h] == Dependents(config, h)
    {
    }
    assert result == map h | h in config :: Dependents(config, h);
    return Some(result);
  }

  /** The components among `done` that depend on `h`. */
  function DependentsAmong(config: Tree, h: Hash, done: set<Hash>): set<Hash>
  {
    set k | k in done && k in config && h in config[k].dependsOn
  }

  lemma DependentsAmongGrow(config: Tree, done: set<Hash>, key: Hash)
    ensures forall h :: DependentsAmong(config, h, done + {key}) ==
              DependentsAmong(config, h, done) + (if key in config && h in config[key].dependsOn then {key} else {})
  {
  }

  /** The inner REVERSE loop for one component: `result[hash][key] = null` for
      each of its dependencies, failing on a dependency with no entry. */
  method InvertEdgesOf(config: Tree, result: Table, key: Hash) returns (r: Option<Table>)
    requires key in config
    requires result.Keys == config.Keys
    ensures r.None? <==> exists d :: d in config[key].dependsOn && d !in config
    ensures r.Some? ==> r.value.Keys == config.Keys
    ensures r.Some? ==> forall h :: h in config ==>
              r.value[h] == result[h] + (if h in config[key].dependsOn then {key} else {})
  {
    var t := result;
    var deps := config[key].dependsOn;
    while deps != {}
      invariant deps <= config[key].dependsOn
      invariant t.Keys == config.Keys
      invariant forall h :: h in config ==>
                  t[h] == result[h] + (if h in config[key].dependsOn && h !in deps then {key} else {})
      invariant forall d :: d in config[key].dependsOn && d !in deps ==> d in config
      decreases deps
    {
      var hash :| hash in deps;
      if hash !in t {
        return None;
      }
      t := t[hash := t[hash] + {key}];
      deps := deps - {hash};
    }
    return Some(t);
  }

  /** `removeDependencies(table, hash)`: `hash` is deleted from every
      waiting-set; the keys and every other edge stay. */
  function Relaxed(t: Table, hash: Hash): (r: Table)
    ensures r.Keys == t.Keys
    ensures forall k :: k in t ==> hash !in r[k]
    ensures forall k, d :: k in t && d != hash ==> (d in r[k] <==> d in t[k])
  {
    map k | k in t :: t[k] - {hash}
  }

  /** The loop of `removeDependencies`: `hash` is deleted from every
      waiting-set, one key at a time. */
  method RemoveDependencies(t: Table, hash: Hash) returns (r: Table)
    ensures r == Relaxed(t, hash)
  {
    r := t;
    var todo := t.Keys;
    while todo != {}
      invariant todo <= t.Keys
      invariant r.Keys == t.Keys
      invariant forall k :: k in t && k !in todo ==> r[k] == t[k] - {hash}
      invariant forall k :: k in todo ==> r[k] == t[k]
      decreases todo
    {
      var key :| key in todo;
      r := r[key := r[key] - {hash}];
      todo := todo - {key};
    }
  }

  /** The components whose waiting-set is empty. */
  function Ready(t: Table): set<Hash>
  {
    set k | k in t && t[k] == {}
  }

  /** `after` arises from `before` by deleting keys and entries only. */
  ghost predicate Shrinks(before: Table, after: Table)
  {
    && after.Keys <= before.Keys
    && forall k :: k in after ==> after[k] <= before[k]
  }

  /** The edges of the table as (waiting component, awaited component) pairs. */
  function Edges(t: Table): set<(Hash, Hash)>
  {
    set k, d | k in t && d in t[k] :: (k, d)
  }

  /** Relaxing by the same component twice is the same as relaxing once. */
  lemma RelaxedIdempotent(t: Table, hash: Hash)
    ensures Relaxed(Relaxed(t, hash), hash) == Relaxed(t, hash)
  {
    assert forall k :: k in t ==> t[k] - {hash} - {hash} == t[k] - {hash};
  }

  /** The order in which two completions are processed does not matter. */
  lemma RelaxedCommutes(t: Table, a: Hash, b: Hash)
    ensures Relaxed(Relaxed(t, a), b) == Relaxed(Relaxed(t, b), a)
  {
    assert forall k :: k in t ==> t[k] - {a} - {b} == t[k] - {b} - {a};
  }

  /** Relaxation and dispatch (deleting keys) only ever shrink the table. */
  lemma RelaxAndDispatchShrink(t: Table, hash: Hash, gone: set<Hash>)
    ensures Shrinks(t, Relaxed(t, hash))
    ensures Shrinks(t, t - gone)
  {
  }

  lemma SubsetCardinality<T>(a: set<T>, b: set<T>)
    requires a <= b
    ensures |a| <= |b|
  {
    assert b == a + (b - a);
  }

  /** A table that only shrinks never gains edges or keys. */
  lemma ShrinkingNeverAddsEdges(before: Table, after: Table)
    requires Shrinks(before, after)
    ensures Edges(after) <= Edges(before)
    ensures |Edges(after)| <= |Edges(before)|
    ensures |after.Keys| <= |before.Keys|
  {
    SubsetCardinality(Edges(after), Edges(before));
    SubsetCardinality(after.Keys, before.Keys);
  }

  /** Shrinking is transitive, so monotonicity carries over a whole run. */
  lemma ShrinksTransitive(a: Table, b: Table, c: Table)
    requires Shrinks(a, b) && Shrinks(b, c)
    ensures Shrinks(a, c)
  {
  }

  /** The table has exactly the run's keys; FORWARD copies each `dependsOn`;
      REVERSE records k under h iff k depends on h; any other orientation
      leaves every entry empty. */
  lemma TableSpecShape(config: Tree, direction: Direction)
    ensures direction == Forward ==>
              TableSpec(config, direction).Some? &&
              forall k :: k in config ==> TableSpec(config, direction).value[k] == config[k].dependsOn
    ensures direction == Reverse && TableSpec(config, direction).Some? ==>
              forall h, k :: h in config && k in config ==>
                (k in TableSpec(config, direction).value[h] <==> h in config[k].dependsOn)
    ensures direction != Forward && direction != Reverse ==>
              TableSpec(config, direction).Some? &&
              forall k :: k in config ==> TableSpec(config, direction).value[k] == {}
  {
  }

  /** The REVERSE table fails exactly when some component of the run depends on
      one outside it; the REVERSE table is the FORWARD table with every edge
      turned round. */
  lemma ReverseInvertsForward(config: Tree)
    ensures TableSpec(config, Reverse).None? <==> Dangling(config)
    ensures TableSpec(config, Reverse).Some? ==>
              forall h, k :: h in config && k in config ==>
                (k in TableSpec(config, Reverse).value[h] <==> h in TableSpec(config, Forward).value[k])
  {
  }
}
