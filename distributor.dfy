/** The scheduler of src/helpers/distributors/distributor.js: it builds the
    adjacency table of a run, admits every component whose waiting-set is
    empty while the local worker counter is below the thread limit, and
    reacts to the `message` and `exit` events of its workers. Each event
    handler is one method, called in any order. */
module Distributor {
  import opened Types
  import opened DependencyTable
  import opened Scheduling

  /** The success payload of a worker; `id` may be absent. */
  datatype Report = Report(id: Option<string>, hash: Hash)

  /** A worker message: an error (`isError`) or a success report. */
  datatype Message = Failure(message: string) | Success(report: Report)

  /** The `worker` field of an exit event: 'lambda' or anything else. */
  datatype WorkerTag = LambdaWorker | OtherWorker

  /** What `getDistributor` hands a component to. */
  datatype Executor = LocalExecutor | AwsExecutor

  /** The promise `runActions` returns. `Crashed` is the rejection by a
      TypeError thrown while the table is built. */
  datatype Settlement = Pending | Resolved(results: seq<Report>) | Rejected(errors: seq<string>) | Crashed

  /** The executor of each `distributor` value: the two remote backends go
      to AWS, and everything else, the default case included, runs locally. */
  function ExecutorFor(b: Backend): (e: Executor)
    ensures e == AwsExecutor <==> b == Lambda || b == Fargate
  {
    match b
    case Local => LocalExecutor
    case Lambda => AwsExecutor
    case Fargate => AwsExecutor
    case Unrecognised => LocalExecutor
  }

  /** How many of the listed components have backend `b`. */
  function CountOf(config: Tree, batch: seq<Hash>, b: Backend): (n: nat)
    ensures n <= |batch|
  {
    if batch == [] then 0
    else
      var last := batch[|batch| - 1];
      CountOf(config, batch[..|batch| - 1], b) + (if last in config && config[last].distributor == b then 1 else 0)
  }

  /** Appending a component counts it under its own backend only. */
  lemma CountOfAppend(config: Tree, batch: seq<Hash>, hash: Hash, b: Backend)
    ensures CountOf(config, batch + [hash], b)
            == CountOf(config, batch, b) + (if hash in config && config[hash].distributor == b then 1 else 0)
  {
    assert (batch + [hash])[..|batch|] == batch;
  }

  /** Every component of a batch is counted under exactly one backend, so
      the local and lambda counters grow by the batch size less the fargate
      and unrecognised components. */
  lemma {:induction false} CountsPartitionBatch(config: Tree, batch: seq<Hash>)
    requires forall i :: 0 <= i < |batch| ==> batch[i] in config
    ensures CountOf(config, batch, Local) + CountOf(config, batch, Lambda)
            + CountOf(config, batch, Fargate) + CountOf(config, batch, Unrecognised) == |batch|
  {
    if batch != [] {
      CountsPartitionBatch(config, batch[..|batch| - 1]);
    }
  }

  /** Every component of `batch` was admitted while the local counter, raised
      from `start` by the local components admitted before it, was below
      `limit`. */
  ghost predicate AdmittedUnderLimit(config: Tree, start: int, batch: seq<Hash>, limit: int)
  {
    forall i :: 0 <= i < |batch| ==> start + CountOf(config, batch[..i], Local) < limit
  }

  /** Admitting one more component below the limit keeps the batch admitted
      under it. */
  lemma AdmitUnderLimit(config: Tree, start: int, batch: seq<Hash>, hash: Hash, limit: int)
    requires AdmittedUnderLimit(config, start, batch, limit)
    requires start + CountOf(config, batch, Local) < limit
    ensures AdmittedUnderLimit(config, start, batch + [hash], limit)
  {
    var next := batch + [hash];
    assert next[..|batch|] == batch;
    assert forall i :: 0 <= i < |batch| ==> next[..i] == batch[..i];
  }

  /** No two results share an `id` (two absent ids count as equal). */
  predicate UniqueIds(results: seq<Report>)
  {
    forall i, j :: 0 <= i < j < |results| ==> results[i].id != results[j].id
  }

  /** `results.some(it => it.id === id)`. */
  predicate HasId(results: seq<Report>, id: Option<string>)
  {
    exists i :: 0 <= i < |results| && results[i].id == id
  }

  /** Appending a report only when its id is new keeps the ids unique. */
  lemma AppendNewIdKeepsUnique(results: seq<Report>, report: Report)
    requires UniqueIds(results)
    ensures !HasId(results, report.id) ==> UniqueIds(results + [report])
  {
  }

  class Distributor {
    /** The configuration object of the run, fingerprint -> component. */
    const projectConfig: Tree
    /** `_threadsCount`: the bound on local workers. */
    const threadsCount: nat
    var workCounter: int
    var localWorkerCounter: int
    var lambdaWorkerCounter: int
    var errors: seq<string>
    /** The `results` array of the current `runActions` call. */
    var results: seq<Report>
    var dependencyTable: Table
    /** The event handlers of `runActions` are registered. */
    var listening: bool
    var settlement: Settlement
    /** The table as built, the components that reported success and the
        components dispatched, since the table was built. */
    ghost var orientation: Direction
    ghost var initialTable: Table
    ghost var relaxed: set<Hash>
    ghost var dispatched: set<Hash>

    /** The local counter respects the bound; the table is the one built for
        the run, less what was dispatched and relaxed; no two results share an
        id. Only `RunActions` changes `initialTable` and `orientation`, and it
        promises that they are the built table and its orientation. */
    ghost predicate Valid()
      reads this
    {
      && localWorkerCounter <= threadsCount
      && initialTable.Keys <= projectConfig.Keys
      && dependencyTable.Keys <= initialTable.Keys
      && Tracks(initialTable, dependencyTable, relaxed, dispatched)
      && UniqueIds(results)
    }

    /** `new Distributor(command)`, with the run's configuration object and
        thread limit. */
    constructor (projectConfig: Tree, threadsCount: nat)
      ensures Valid()
      ensures this.projectConfig == projectConfig && this.threadsCount == threadsCount
      ensures workCounter == 0 && localWorkerCounter == 0 && lambdaWorkerCounter == 0
      ensures errors == [] && results == [] && dependencyTable == map[]
      ensures !listening && settlement == Pending
    {
      this.projectConfig := projectConfig;
      this.threadsCount := threadsCount;
      workCounter := 0;
      localWorkerCounter := 0;
      lambdaWorkerCounter := 0;
      errors := [];
      results := [];
      dependencyTable := map[];
      listening := false;
      settlement := Pending;
      orientation := Unset;
      initialTable := map[];
      relaxed := {};
      dispatched := {};
    }

    /** `runActions(...)` up to the registration of its handlers: build the
        table for `direction`, run one admission pass, then listen. A table
        that cannot be built rejects the run. */
    method RunActions(direction: Direction) returns (admitted: seq<Hash>)
      requires Valid()
      modifies this`results, this`settlement, this`listening, this`dependencyTable, this`workCounter,
               this`localWorkerCounter, this`lambdaWorkerCounter,
               this`orientation, this`initialTable, this`relaxed, this`dispatched
      ensures Valid()
      ensures TableSpec(projectConfig, direction) == if listening then Some(initialTable) else None
      ensures !listening ==> settlement == Crashed && admitted == []
      ensures !listening ==> dependencyTable == old(dependencyTable) && workCounter == old(workCounter)
      ensures listening ==>
                && settlement == Pending && results == [] && orientation == direction
                && AdmittedFrom(initialTable, dependencyTable, admitted)
                && workCounter == old(workCounter) + |admitted|
      ensures listening && localWorkerCounter < threadsCount ==> Ready(dependencyTable) == {}
      ensures Elements(admitted) <= projectConfig.Keys
      ensures localWorkerCounter == old(localWorkerCounter) + CountOf(projectConfig, admitted, Local)
      ensures lambdaWorkerCounter == old(lambdaWorkerCounter) + CountOf(projectConfig, admitted, Lambda)
      ensures forall i :: 0 <= i < |admitted| ==>
                old(localWorkerCounter) + CountOf(projectConfig, admitted[..i], Local) < threadsCount
    {
      admitted := [];
      results := [];
      LoadTable(direction);
      if listening {
        admitted := DistributeConfig();
      }
    }

    /** The start of `runActions`: the table is built afresh for `direction`;
        when the builder throws, the returned promise is rejected. */
    method LoadTable(direction: Direction)
      requires Valid()
      modifies this`settlement, this`listening, this`dependencyTable,
               this`orientation, this`initialTable, this`relaxed, this`dispatched
      ensures Valid()
      ensures TableSpec(projectConfig, direction) == if listening then Some(initialTable) else None
      ensures !listening ==> settlement == Crashed && dependencyTable == old(dependencyTable)
      ensures listening ==> settlement == Pending && orientation == direction && dependencyTable == initialTable
    {
      settlement := Pending;
      var built := BuildDependencyTable(projectConfig, direction);
      if built.None? {
        listening := false;
        settlement := Crashed;
        return;
      }
      StartTracks(built.value);
      dependencyTable := built.value;
      orientation := direction;
      initialTable := built.value;
      relaxed := {};
      dispatched := {};
      listening := true;
    }

    /** `getDistributor(hash)`: only 'local' raises the local counter and
        only 'lambda' the lambda counter. */
    method GetDistributor(hash: Hash) returns (executor: Executor)
      requires hash in projectConfig
      modifies this`localWorkerCounter, this`lambdaWorkerCounter
      ensures executor == ExecutorFor(projectConfig[hash].distributor)
      ensures localWorkerCounter == old(localWorkerCounter) + (if projectConfig[hash].distributor == Local then 1 else 0)
      ensures lambdaWorkerCounter == old(lambdaWorkerCounter) + (if projectConfig[hash].distributor == Lambda then 1 else 0)
    {
      match projectConfig[hash].distributor {
        case Local =>
          localWorkerCounter := localWorkerCounter + 1;
          executor := LocalExecutor;
        case Lambda =>
          lambdaWorkerCounter := lambdaWorkerCounter + 1;
          executor := AwsExecutor;
        case Fargate =>
          executor := AwsExecutor;
        case Unrecognised =>
          executor := LocalExecutor;
      }
    }

    /** One admission of `distributeConfig()`: count the component, pick its
        executor and delete it from the table. */
    method Dispatch(hash: Hash)
      requires Valid() && hash in dependencyTable && dependencyTable[hash] == {}
      requires localWorkerCounter < threadsCount
      modifies this`workCounter, this`localWorkerCounter, this`lambdaWorkerCounter,
               this`dependencyTable, this`dispatched
      ensures Valid()
      ensures hash in projectConfig
      ensures dependencyTable == old(dependencyTable) - {hash}
      ensures workCounter == old(workCounter) + 1
      ensures localWorkerCounter == old(localWorkerCounter) + (if projectConfig[hash].distributor == Local then 1 else 0)
      ensures lambdaWorkerCounter == old(lambdaWorkerCounter) + (if projectConfig[hash].distributor == Lambda then 1 else 0)
      ensures dispatched == old(dispatched) + {hash}
    {
      DispatchKeepsTracks(initialTable, dependencyTable, relaxed, dispatched, hash);
      var executor := GetDistributor(hash);
      workCounter := workCounter + 1;
      dependencyTable := dependencyTable - {hash};
      dispatched := dispatched + {hash};
    }

    /** One admission step of `distributeConfig()`, stated as the change it
        makes to the loop's bookkeeping over `batch`. */
    method Admit(ghost start: Table, ghost todo: set<Hash>, ghost batch: seq<Hash>, hash: Hash)
      requires Valid() && Admitting(start, dependencyTable, todo, batch)
      requires hash in todo && dependencyTable[hash] == {} && localWorkerCounter < threadsCount
      modifies this`workCounter, this`localWorkerCounter, this`lambdaWorkerCounter,
               this`dependencyTable, this`dispatched
      ensures Valid() && Admitting(start, dependencyTable, todo - {hash}, batch + [hash])
      ensures hash in projectConfig
      ensures workCounter == old(workCounter) + 1
      ensures localWorkerCounter - CountOf(projectConfig, batch + [hash], Local)
              == old(localWorkerCounter) - CountOf(projectConfig, batch, Local)
      ensures lambdaWorkerCounter - CountOf(projectConfig, batch + [hash], Lambda)
              == old(lambdaWorkerCounter) - CountOf(projectConfig, batch, Lambda)
      ensures dispatched == old(dispatched) + {hash} && Elements(batch + [hash]) == Elements(batch) + {hash}
    {
      AdmitKeepsAdmitting(start, dependencyTable, todo, batch, hash);
      Dispatch(hash);
      CountOfAppend(projectConfig, batch, hash, Local);
      CountOfAppend(projectConfig, batch, hash, Lambda);
      ElementsAppend(batch, hash);
    }

    /** `distributeConfig()`: over the keys present at the start, while the
        local counter is below the limit, dispatch each component whose
        waiting-set is empty. */
    method DistributeConfig() returns (batch: seq<Hash>)
      requires Valid()
      modifies this`workCounter, this`localWorkerCounter, this`lambdaWorkerCounter,
               this`dependencyTable, this`dispatched
      ensures Valid()
      ensures AdmittedFrom(old(dependencyTable), dependencyTable, batch)
      ensures Elements(batch) <= projectConfig.Keys
      ensures workCounter == old(workCounter) + |batch|
      ensures localWorkerCounter == old(localWorkerCounter) + CountOf(projectConfig, batch, Local)
      ensures lambdaWorkerCounter == old(lambdaWorkerCounter) + CountOf(projectConfig, batch, Lambda)
      ensures localWorkerCounter < threadsCount ==> Ready(dependencyTable) == {}
      ensures forall i :: 0 <= i < |batch| ==> old(localWorkerCounter) + CountOf(projectConfig, batch[..i], Local) < threadsCount
      ensures dispatched == old(dispatched) + Elements(batch)
    {
      ghost var start, work, local, lambda, sent := dependencyTable, workCounter, localWorkerCounter,
                                                     lambdaWorkerCounter, dispatched;
      var todo := dependencyTable.Keys;
      batch := [];
      StartAdmitting(start);
      while todo != {} && localWorkerCounter < threadsCount
        invariant Valid()
        invariant Admitting(start, dependencyTable, todo, batch)
        invariant Elements(batch) <= projectConfig.Keys
        invariant workCounter == work + |batch|
        invariant localWorkerCounter == local + CountOf(projectConfig, batch, Local)
        invariant lambdaWorkerCounter == lambda + CountOf(projectConfig, batch, Lambda)
        invariant dispatched == sent + Elements(batch)
        invariant AdmittedUnderLimit(projectConfig, local, batch, threadsCount)
        decreases todo
      {
        var hash :| hash in todo;
        if dependencyTable[hash] == {} {
          AdmitUnderLimit(projectConfig, local, batch, hash, threadsCount);
          Admit(start, todo, batch, hash);
          batch := batch + [hash];
        } else {
          SkipKeepsAdmitting(start, dependencyTable, todo, batch, hash);
        }
        todo := todo - {hash};
      }
      if todo == {} {
        AdmittedEverything(start, dependencyTable, batch);
      } else {
        StillAdmitting(start, dependencyTable, todo, batch);
      }
    }

    /** In FORWARD orientation a dispatched component's every dependency has
        reported success: the scheduler never starts a component early. */
    lemma ForwardDispatchWaitsForDependencies(hash: Hash)
      requires Valid() && hash in dispatched
      requires Some(initialTable) == TableSpec(projectConfig, Forward)
      ensures hash in projectConfig && projectConfig[hash].dependsOn <= relaxed
    {
      TableSpecShape(projectConfig, Forward);
      TrackedKeys(initialTable, dependencyTable, relaxed, dispatched);
    }

    /** `removeDependencies(this._dependencyTable, hash)`. */
    method RemoveDependencies(hash: Hash)
      requires Valid()
      modifies this`dependencyTable, this`relaxed
      ensures Valid()
      ensures dependencyTable == Relaxed(old(dependencyTable), hash)
      ensures relaxed == old(relaxed) + {hash}
    {
      RelaxKeepsTracks(initialTable, dependencyTable, relaxed, dispatched, hash);
      dependencyTable := DependencyTable.RemoveDependencies(dependencyTable, hash);
      relaxed := relaxed + {hash};
    }

    /** The `message` handler: an error is recorded and nothing else happens;
        a success is kept unless a result with its id is already kept, and
        releases the components waiting on it. */
    method OnMessage(m: Message)
      requires Valid()
      modifies this`errors, this`results, this`dependencyTable, this`relaxed
      ensures Valid()
      ensures m.Failure? ==> errors == old(errors) + [m.message]
                             && dependencyTable == old(dependencyTable) && results == old(results)
      ensures m.Success? ==> errors == old(errors)
                             && dependencyTable == Relaxed(old(dependencyTable), m.report.hash)
                             && results == (if HasId(old(results), m.report.id) then old(results)
                                            else old(results) + [m.report])
      ensures Shrinks(old(dependencyTable), dependencyTable)
    {
      match m {
        case Failure(message) =>
          errors := errors + [message];
        case Success(report) =>
          AppendNewIdKeepsUnique(results, report);
          if !HasId(results, report.id) {
            results := results + [report];
          }
          RemoveDependencies(report.hash);
          RelaxAndDispatchShrink(old(dependencyTable), report.hash, {});
      }
    }

    /** Resolving or rejecting a promise that has settled changes nothing. */
    method Settle(outcome: Settlement)
      modifies this`settlement
      ensures settlement == if old(settlement) == Pending then outcome else old(settlement)
    {
      if settlement == Pending {
        settlement := outcome;
      }
    }

    /** The bookkeeping of the `exit` handler: one worker less, in total and
        for its backend, and re-admission only after a clean exit with no
        error recorded. */
    method ReleaseAndReadmit(code: int, worker: WorkerTag) returns (admitted: seq<Hash>)
      requires Valid()
      modifies this`workCounter, this`localWorkerCounter, this`lambdaWorkerCounter,
               this`dependencyTable, this`dispatched
      ensures Valid()
      ensures admitted != [] ==> code == 0 && errors == []
      ensures AdmittedFrom(old(dependencyTable), dependencyTable, admitted)
      ensures workCounter == old(workCounter) - 1 + |admitted|
      ensures Elements(admitted) <= projectConfig.Keys
      ensures localWorkerCounter == old(localWorkerCounter) - (if worker == LambdaWorker then 0 else 1)
                                    + CountOf(projectConfig, admitted, Local)
      ensures lambdaWorkerCounter == old(lambdaWorkerCounter) - (if worker == LambdaWorker then 1 else 0)
                                     + CountOf(projectConfig, admitted, Lambda)
      ensures code == 0 && errors == [] && localWorkerCounter < threadsCount ==> Ready(dependencyTable) == {}
      ensures forall i :: 0 <= i < |admitted| ==>
                old(localWorkerCounter) - (if worker == LambdaWorker then 0 else 1)
                + CountOf(projectConfig, admitted[..i], Local) < threadsCount
    {
      workCounter := workCounter - 1;
      if worker == LambdaWorker {
        lambdaWorkerCounter := lambdaWorkerCounter - 1;
      } else {
        localWorkerCounter := localWorkerCounter - 1;
      }
      admitted := [];
      if code == 0 && errors == [] {
        admitted := DistributeConfig();
      } else {
        NothingAdmitted(dependencyTable);
      }
    }

    /** The settling tests of the `exit` handler: resolve with the results
        once nothing waits, nothing runs and nothing failed; reject with the
        errors once something failed and nothing runs. */
    method SettleIfDone()
      modifies this`settlement
      ensures old(settlement) != Pending ==> settlement == old(settlement)
      ensures old(settlement) == Pending ==>
                (settlement == Resolved(results) <==> dependencyTable == map[] && workCounter == 0 && errors == [])
      ensures old(settlement) == Pending ==>
                (settlement == Rejected(errors) <==> errors != [] && workCounter == 0)
      ensures old(settlement) == Pending ==>
                (settlement == Pending <==> workCounter != 0 || (errors == [] && dependencyTable != map[]))
    {
      if dependencyTable == map[] && workCounter == 0 && errors == [] {
        Settle(Resolved(results));
      }
      if errors != [] && workCounter == 0 {
        Settle(Rejected(errors));
      }
    }

    /** The `exit` handler: one worker less, in total and for its backend;
        re-admission only after a clean exit with no error recorded; then
        resolve with the results once nothing waits, nothing runs and nothing
        failed, or reject with the errors once something failed and nothing
        runs. */
    method OnExit(code: int, worker: WorkerTag) returns (admitted: seq<Hash>)
      requires Valid()
      modifies this`workCounter, this`localWorkerCounter, this`lambdaWorkerCounter,
               this`dependencyTable, this`dispatched, this`settlement
      ensures Valid()
      ensures admitted != [] ==> code == 0 && errors == []
      ensures AdmittedFrom(old(dependencyTable), dependencyTable, admitted)
      ensures workCounter == old(workCounter) - 1 + |admitted|
      ensures Elements(admitted) <= projectConfig.Keys
      ensures localWorkerCounter == old(localWorkerCounter) - (if worker == LambdaWorker then 0 else 1)
                                    + CountOf(projectConfig, admitted, Local)
      ensures lambdaWorkerCounter == old(lambdaWorkerCounter) - (if worker == LambdaWorker then 1 else 0)
                                     + CountOf(projectConfig, admitted, Lambda)
      ensures code == 0 && errors == [] && localWorkerCounter < threadsCount ==> Ready(dependencyTable) == {}
      ensures forall i :: 0 <= i < |admitted| ==>
                old(localWorkerCounter) - (if worker == LambdaWorker then 0 else 1)
                + CountOf(projectConfig, admitted[..i], Local) < threadsCount
      ensures old(settlement) != Pending ==> settlement == old(settlement)
      ensures old(settlement) == Pending ==>
                (settlement == Resolved(results) <==> dependencyTable == map[] && workCounter == 0 && errors == [])
      ensures old(settlement) == Pending ==>
                (settlement == Rejected(errors) <==> errors != [] && workCounter == 0)
      ensures old(settlement) == Pending ==>
                (settlement == Pending <==> workCounter != 0 || (errors == [] && dependencyTable != map[]))
    {
      admitted := ReleaseAndReadmit(code, worker);
      SettleIfDone();
    }
  }
}
