/** The older, cluster-based scheduler of src/helpers/distributor.js: one
    forked worker per component, bounded by the thread count, admission by
    the same adjacency table, and `message`/`exit` handlers driven by the
    cluster. Workers are known by the increasing ids the cluster gives them;
    `workers` is `cluster.workers`, mapping each live worker to the
    component it was sent. */
module ClusterDistributor {
  import opened Types
  import opened DependencyTable
  import opened Scheduling

  /** What a worker reports as an error: an `Error` object, kept as is, or
      any other value, known by its `JSON.stringify` text. */
  datatype Payload = ErrorValue(message: string) | OtherValue(json: string)

  /** A cluster message: an error, or a success with an optional `data`
      field for the component `hash`. */
  datatype Message = Failed(error: Payload) | Finished(data: Option<string>, hash: Hash)

  /** The promise `runActions` returns. */
  datatype Settlement = Pending | Resolved(results: seq<string>) | Rejected(error: Payload)

  /** The error `_handleError` builds: an `Error` is kept, anything else is
      wrapped in an `Error` whose message names it. */
  function AsError(err: Payload): (e: Payload)
    ensures e.ErrorValue?
    ensures err.ErrorValue? ==> e == err
    ensures err.OtherValue? ==> e.message == "Worker error: " + err.json
  {
    match err
    case ErrorValue(_) => err
    case OtherValue(json) => ErrorValue("Worker error: " + json)
  }

  /** Wrapping is idempotent: an error built by `_handleError` passes through
      it unchanged, and two payloads wrap to the same error only when they
      agree. */
  lemma AsErrorIdempotent(err: Payload)
    ensures AsError(AsError(err)) == AsError(err)
    ensures forall other: Payload :: other.OtherValue? && err.OtherValue? && AsError(other) == AsError(err) ==> other == err
  {
    forall other: Payload | other.OtherValue? && err.OtherValue? && AsError(other) == AsError(err)
      ensures other == err
    {
      var prefix := "Worker error: ";
      assert AsError(other).message == prefix + other.json;
      assert other.json == (prefix + other.json)[|prefix|..];
      assert err.json == (prefix + err.json)[|prefix|..];
    }
  }

  class Distributor {
    /** `_config`: the configuration object, fingerprint -> component. */
    const config: Tree
    /** `_threadsCount`: the bound on live workers. */
    const threadsCount: nat
    var workersCount: int
    /** `cluster.workers`: worker id -> the component sent to it. */
    var workers: map<nat, Hash>
    /** The id the cluster gives the next forked worker. */
    var nextWorkerId: nat
    var dependencyTable: Table
    /** The `results` array of the current `runActions` call. */
    var results: seq<string>
    /** `_error`: the last error recorded, never cleared. */
    var error: Option<Payload>
    var settlement: Settlement
    /** The table as built, the components that reported success and the
        components handed to a worker, since the table was built. */
    ghost var initialTable: Table
    ghost var relaxed: set<Hash>
    ghost var dispatched: set<Hash>

    /** The counter is the number of live workers and respects the bound;
        every live worker has an id already given out; until an error is
        recorded, the table is the one built, less what was dispatched and
        relaxed. */
    ghost predicate Valid()
      reads this
    {
      && workersCount == |workers|
      && workersCount <= threadsCount
      && (forall id :: id in workers ==> id < nextWorkerId)
      && dependencyTable.Keys <= config.Keys
      && (error.None? ==> Tracks(initialTable, dependencyTable, relaxed, dispatched))
    }

    /** `new Distributor(configObject)`, with the thread count the host
        reports. */
    constructor (config: Tree, threadsCount: nat)
      ensures Valid()
      ensures this.config == config && this.threadsCount == threadsCount
      ensures workersCount == 0 && workers == map[] && dependencyTable == map[]
      ensures error == None && results == [] && settlement == Pending
    {
      this.config := config;
      this.threadsCount := threadsCount;
      workersCount := 0;
      workers := map[];
      nextWorkerId := 1;
      dependencyTable := map[];
      results := [];
      error := None;
      settlement := Pending;
      initialTable := map[];
      relaxed := {};
      dispatched := {};
    }

    /** `runActions(...)`: the table is built for `direction`, which throws
        to the caller when it cannot be built; otherwise one admission pass
        runs before the handlers listen. */
    method RunActions(direction: Direction) returns (r: Result<seq<Hash>, ()>)
      requires Valid()
      modifies this`results, this`settlement, this`dependencyTable, this`workersCount,
               this`workers, this`nextWorkerId, this`initialTable, this`relaxed, this`dispatched
      ensures Valid()
      ensures TableSpec(config, direction) == if r.Ok? then Some(initialTable) else None
      ensures r.Err? ==> dependencyTable == old(dependencyTable) && workers == old(workers)
                         && results == old(results) && settlement == old(settlement)
      ensures r.Ok? ==>
                && results == [] && settlement == Pending
                && AdmittedFrom(initialTable, dependencyTable, r.value)
                && workersCount == old(workersCount) + |r.value|
      ensures r.Ok? && workersCount < threadsCount ==> Ready(dependencyTable) == {}
      ensures forall id :: id in old(workers) ==> id in workers && workers[id] == old(workers)[id]
      ensures r.Ok? ==> forall id :: id in workers && id !in old(workers) ==> workers[id] in Elements(r.value)
      ensures r.Ok? ==> forall k :: k in r.value ==> exists id :: id in workers && id !in old(workers) && workers[id] == k
    {
      var loaded := LoadTable(direction);
      if !loaded {
        return Err(());
      }
      results := [];
      settlement := Pending;
      var admitted := DistributeConfigs();
      r := Ok(admitted);
    }

    /** The start of `runActions`: the table is built afresh for
        `direction`; nothing changes when the builder throws. */
    method LoadTable(direction: Direction) returns (loaded: bool)
      requires Valid()
      modifies this`dependencyTable, this`initialTable, this`relaxed, this`dispatched
      ensures Valid()
      ensures TableSpec(config, direction) == if loaded then Some(initialTable) else None
      ensures loaded ==> dependencyTable == initialTable
      ensures !loaded ==> dependencyTable == old(dependencyTable)
    {
      var built := BuildDependencyTable(config, direction);
      if built.None? {
        return false;
      }
      StartTracks(built.value);
      dependencyTable := built.value;
      initialTable := built.value;
      relaxed := {};
      dispatched := {};
      loaded := true;
    }

    /** `_createWorker(hash)`: fork one worker for the component, delete it
        from the table and count it. Its one caller passes a ready key while
        below the thread bound. */
    method CreateWorker(hash: Hash)
      requires Valid() && hash in dependencyTable && dependencyTable[hash] == {}
      requires workersCount < threadsCount
      modifies this`workersCount, this`workers, this`nextWorkerId, this`dependencyTable, this`dispatched
      ensures Valid()
      ensures dependencyTable == old(dependencyTable) - {hash}
      ensures workersCount == old(workersCount) + 1
      ensures old(nextWorkerId) !in old(workers) && workers == old(workers)[old(nextWorkerId) := hash]
      ensures nextWorkerId == old(nextWorkerId) + 1
      ensures dispatched == old(dispatched) + {hash}
    {
      if error.None? {
        DispatchKeepsTracks(initialTable, dependencyTable, relaxed, dispatched, hash);
      }
      assert nextWorkerId !in workers;
      workers := workers[nextWorkerId := hash];
      nextWorkerId := nextWorkerId + 1;
      dependencyTable := dependencyTable - {hash};
      workersCount := workersCount + 1;
      dispatched := dispatched + {hash};
    }

    /** `_distributeConfigs()`: over the keys present at the start, while
        fewer workers run than the bound allows, fork a worker for each
        component whose waiting-set is empty. */
    method DistributeConfigs() returns (batch: seq<Hash>)
      requires Valid()
      modifies this`workersCount, this`workers, this`nextWorkerId, this`dependencyTable, this`dispatched
      ensures Valid()
      ensures AdmittedFrom(old(dependencyTable), dependencyTable, batch)
      ensures workersCount == old(workersCount) + |batch|
      ensures workersCount < threadsCount ==> Ready(dependencyTable) == {}
      ensures old(workers).Keys <= workers.Keys
      ensures forall id :: id in old(workers) ==> workers[id] == old(workers)[id]
      ensures forall id :: id in workers && id !in old(workers) ==> id >= old(nextWorkerId) && workers[id] in Elements(batch)
      ensures forall k :: k in batch ==> exists id :: id in workers && id !in old(workers) && workers[id] == k
      ensures dispatched == old(dispatched) + Elements(batch)
    {
      ghost var start := dependencyTable;
      var todo := dependencyTable.Keys;
      batch := [];
      StartAdmitting(start);
      while workersCount < threadsCount && todo != {}
        invariant Valid()
        invariant Admitting(start, dependencyTable, todo, batch)
        invariant workersCount == old(workersCount) + |batch|
        invariant old(workers).Keys <= workers.Keys
        invariant forall id :: id in old(workers) ==> workers[id] == old(workers)[id]
        invariant forall id :: id in workers && id !in old(workers) ==> id >= old(nextWorkerId) && workers[id] in Elements(batch)
        invariant forall k :: k in batch ==> exists id :: id in workers && id !in old(workers) && workers[id] == k
        invariant nextWorkerId >= old(nextWorkerId)
        invariant dispatched == old(dispatched) + Elements(batch)
        decreases todo
      {
        var hash :| hash in todo;
        if dependencyTable[hash] == {} {
          AdmitKeepsAdmitting(start, dependencyTable, todo, batch, hash);
          CreateWorker(hash);
          ElementsAppend(batch, hash);
          batch := batch + [hash];
        } else {
          SkipKeepsAdmitting(start, dependencyTable, todo, batch, hash);
        }
        todo := todo - {hash};
      }
      if todo == {} {
        AdmittedEverything(start, dependencyTable, batch);
      } else {
        StillAdmitting(start, dependencyTable, todo, batch);
      }
    }

    /** Until an error is recorded, in FORWARD orientation a component gets
        a worker only once every one of its dependencies has reported
        success. */
    lemma ForwardDispatchWaitsForDependencies(hash: Hash)
      requires Valid() && error.None? && hash in dispatched
      requires Some(initialTable) == TableSpec(config, Forward)
      ensures hash in config && config[hash].dependsOn <= relaxed
    {
      TableSpecShape(config, Forward);
      TrackedKeys(initialTable, dependencyTable, relaxed, dispatched);
    }

    /** `_removeDependencies(hash)`. */
    method RemoveDependencies(hash: Hash)
      requires Valid()
      modifies this`dependencyTable, this`relaxed
      ensures Valid()
      ensures dependencyTable == Relaxed(old(dependencyTable), hash)
      ensures relaxed == old(relaxed) + {hash}
    {
      if error.None? {
        RelaxKeepsTracks(initialTable, dependencyTable, relaxed, dispatched, hash);
      }
      dependencyTable := DependencyTable.RemoveDependencies(dependencyTable, hash);
      relaxed := relaxed + {hash};
    }

    /** `_handleError(err)`: every live worker is told to stop (the exits
        arrive later as `exit` events), the table is emptied and the error
        to report is built. The invariant is restored only once the error is
        recorded, which `OnMessage` does right after the call, hence the
        conditional `Valid()`. */
    method HandleError(err: Payload) returns (e: Payload)
      requires Valid()
      modifies this`dependencyTable
      ensures dependencyTable == map[]
      ensures e == AsError(err)
      ensures error.Some? ==> Valid()
    {
      dependencyTable := map[];
      e := AsError(err);
    }

    /** The `message` handler: an error replaces the recorded one and empties
        the table; a success keeps its `data`, when it has one, and releases
        the components waiting on it. */
    method OnMessage(m: Message)
      requires Valid()
      modifies this`error, this`results, this`dependencyTable, this`relaxed
      ensures Valid()
      ensures m.Failed? ==> error == Some(AsError(m.error)) && dependencyTable == map[] && results == old(results)
      ensures m.Finished? ==>
                && error == old(error)
                && dependencyTable == Relaxed(old(dependencyTable), m.hash)
                && results == old(results) + (if m.data.Some? then [m.data.value] else [])
      ensures Shrinks(old(dependencyTable), dependencyTable)
    {
      match m {
        case Failed(err) =>
          var e := HandleError(err);
          error := Some(e);
        case Finished(data, hash) =>
          if data.Some? {
            results := results + [data.value];
          }
          RemoveDependencies(hash);
          RelaxAndDispatchShrink(old(dependencyTable), hash, {});
      }
    }

    /** The exiting worker leaves `cluster.workers` and the counter. */
    method Release(id: nat)
      requires Valid() && id in workers
      modifies this`workersCount, this`workers
      ensures Valid()
      ensures workers == old(workers) - {id}
      ensures workersCount == old(workersCount) - 1
    {
      assert (workers - {id}).Keys + {id} == workers.Keys;
      workersCount := workersCount - 1;
      workers := workers - {id};
    }

    /** The settling test of the `exit` handler: once no worker is live and
        nothing waits, the promise is rejected with the recorded error, if
        any, else resolved with the results; a settled promise stays so. */
    method SettleIfDone()
      modifies this`settlement
      ensures settlement == if old(settlement) == Pending && workers == map[] && dependencyTable == map[]
                            then (if error.Some? then Rejected(error.value) else Resolved(results))
                            else old(settlement)
    {
      if workers == map[] && dependencyTable == map[] && settlement == Pending {
        if error.Some? {
          settlement := Rejected(error.value);
        } else {
          settlement := Resolved(results);
        }
      }
    }

    /** The bookkeeping of the `exit` handler: the worker `id` leaves
        `cluster.workers` and the counter, and a clean exit triggers an
        admission pass. */
    method ReleaseAndReadmit(id: nat, code: int) returns (admitted: seq<Hash>)
      requires Valid() && id in workers
      modifies this`workersCount, this`workers, this`nextWorkerId, this`dependencyTable, this`dispatched
      ensures Valid()
      ensures admitted != [] ==> code == 0
      ensures AdmittedFrom(old(dependencyTable), dependencyTable, admitted)
      ensures workersCount == old(workersCount) - 1 + |admitted|
      ensures code == 0 && workersCount < threadsCount ==> Ready(dependencyTable) == {}
      ensures id !in workers
      ensures forall i :: i in old(workers) && i != id ==> i in workers && workers[i] == old(workers)[i]
      ensures forall i :: i in workers && i !in old(workers) ==> workers[i] in Elements(admitted)
      ensures forall k :: k in admitted ==> exists i :: i in workers && i !in old(workers) && workers[i] == k
    {
      Release(id);
      admitted := [];
      if code == 0 {
        admitted := DistributeConfigs();
      } else {
        NothingAdmitted(dependencyTable);
      }
    }

    /** The `exit` handler for the live worker `id`: it leaves
        `cluster.workers` and the counter; a clean exit triggers an admission
        pass; once no worker is live and nothing waits, the run settles,
        rejected with the recorded error if there is one. */
    method OnExit(id: nat, code: int) returns (admitted: seq<Hash>)
      requires Valid() && id in workers
      modifies this`workersCount, this`workers, this`nextWorkerId, this`dependencyTable,
               this`dispatched, this`settlement
      ensures Valid()
      ensures admitted != [] ==> code == 0
      ensures AdmittedFrom(old(dependencyTable), dependencyTable, admitted)
      ensures workersCount == old(workersCount) - 1 + |admitted|
      ensures code == 0 && workersCount < threadsCount ==> Ready(dependencyTable) == {}
      ensures id !in workers
      ensures forall i :: i in old(workers) && i != id ==> i in workers && workers[i] == old(workers)[i]
      ensures forall i :: i in workers && i !in old(workers) ==> workers[i] in Elements(admitted)
      ensures forall k :: k in admitted ==> exists i :: i in workers && i !in old(workers) && workers[i] == k
      ensures settlement == if old(settlement) == Pending && workers == map[] && dependencyTable == map[]
                            then (if error.Some? then Rejected(error.value) else Resolved(results))
                            else old(settlement)
    {
      admitted := ReleaseAndReadmit(id, code);
      SettleIfDone();
    }
  }
}
