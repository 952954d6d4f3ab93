/** The bookkeeping both schedulers share, stated on values: how an
    admission pass takes components out of the table, and how the table
    that remains relates to the table as built. */
module Scheduling {
  import opened Types
  import opened DependencyTable

  /** An admission pass took `batch` out of `before`, leaving `after`: the
      batch lists distinct components that waited on nothing. */
  ghost predicate AdmittedFrom(before: Table, after: Table, batch: seq<Hash>)
  {
    && Distinct(batch) && Elements(batch) <= Ready(before)
    && after == before - Elements(batch)
  }

  /** A sequence without repetition has as many elements as its set. */
  lemma {:induction false} DistinctCardinality(s: seq<Hash>)
    requires Distinct(s)
    ensures |Elements(s)| == |s|
  {
    if s != [] {
      var t := s[..|s| - 1];
      DistinctCardinality(t);
      assert s == t + [s[|s| - 1]];
      ElementsAppend(t, s[|s| - 1]);
    }
  }

  /** An admission pass only deletes keys, each of which waited on nothing,
      and the table loses exactly one key per admitted component. */
  lemma AdmissionShrinks(before: Table, after: Table, batch: seq<Hash>)
    requires AdmittedFrom(before, after, batch)
    ensures Shrinks(before, after)
    ensures forall k :: k in before && k !in after ==> k in Elements(batch) && before[k] == {}
    ensures |after.Keys| + |batch| == |before.Keys|
  {
    DistinctCardinality(batch);
    assert before.Keys == after.Keys + Elements(batch);
  }

  /** An emptied table admits nothing more. */
  lemma EmptyTableAdmitsNothing(after: Table, batch: seq<Hash>)
    requires AdmittedFrom(map[], after, batch)
    ensures batch == [] && after == map[]
  {
    assert Ready(map[]) == {};
    NoElementsIsEmpty(batch);
  }

  lemma NothingAdmitted(t: Table)
    ensures AdmittedFrom(t, t, [])
  {
    assert Elements<Hash>([]) == {};
  }

  /** Part of an admission pass over the keys `start` had when the pass
      began: `todo` still to visit, `batch` dispatched in order, and every
      key visited but not dispatched was waiting on something. */
  ghost predicate Admitting(start: Table, table: Table, todo: set<Hash>, batch: seq<Hash>)
  {
    && todo <= table.Keys
    && table == start - Elements(batch)
    && Distinct(batch) && Elements(batch) <= Ready(start)
    && (forall k :: k in start && k !in todo && k !in Elements(batch) ==> start[k] != {})
  }

  lemma StartAdmitting(start: Table)
    ensures Admitting(start, start, start.Keys, [])
  {
  }

  /** Visiting a key that still waits dispatches nothing. */
  lemma SkipKeepsAdmitting(start: Table, table: Table, todo: set<Hash>, batch: seq<Hash>, hash: Hash)
    requires Admitting(start, table, todo, batch) && hash in todo && table[hash] != {}
    ensures Admitting(start, table, todo - {hash}, batch)
  {
  }

  /** Visiting a key that waits on nothing dispatches it. */
  lemma AdmitKeepsAdmitting(start: Table, table: Table, todo: set<Hash>, batch: seq<Hash>, hash: Hash)
    requires Admitting(start, table, todo, batch) && hash in todo && table[hash] == {}
    ensures Admitting(start, table - {hash}, todo - {hash}, batch + [hash])
  {
    ElementsAppend(batch, hash);
  }

  /** A pass stopped early has admitted from its start. */
  lemma StillAdmitting(start: Table, table: Table, todo: set<Hash>, batch: seq<Hash>)
    requires Admitting(start, table, todo, batch)
    ensures AdmittedFrom(start, table, batch)
  {
  }

  /** A pass that visited every key leaves nothing ready. */
  lemma AdmittedEverything(start: Table, table: Table, batch: seq<Hash>)
    requires Admitting(start, table, {}, batch)
    ensures Ready(table) == {}
    ensures AdmittedFrom(start, table, batch)
  {
  }

  /** Every component of the built table `initial` is either still waiting
      or dispatched; a waiting one waits exactly on its built entries that
      have not reported success; a dispatched one waited on nothing that had
      not reported. */
  ghost predicate Tracks(initial: Table, table: Table, relaxed: set<Hash>, dispatched: set<Hash>)
  {
    && table.Keys !! dispatched
    && table.Keys + dispatched == initial.Keys
    && (forall k :: k in table ==> table[k] == initial[k] - relaxed)
    && (forall k :: k in dispatched ==> initial[k] <= relaxed)
  }

  /** A freshly built table tracks itself. */
  lemma StartTracks(initial: Table)
    ensures Tracks(initial, initial, {}, {})
  {
  }

  /** The waiting and the dispatched components are components of the built
      table. */
  lemma TrackedKeys(initial: Table, table: Table, relaxed: set<Hash>, dispatched: set<Hash>)
    requires Tracks(initial, table, relaxed, dispatched)
    ensures table.Keys <= initial.Keys && dispatched <= initial.Keys
  {
  }

  /** Dispatching a component with an empty waiting-set keeps the tracking;
      everything it waited on in the built table had reported. */
  lemma DispatchKeepsTracks(initial: Table, table: Table, relaxed: set<Hash>, dispatched: set<Hash>, k: Hash)
    requires Tracks(initial, table, relaxed, dispatched)
    requires k in table && table[k] == {}
    ensures Tracks(initial, table - {k}, relaxed, dispatched + {k})
    ensures initial[k] <= relaxed
  {
    assert k in initial && initial[k] - relaxed == {};
    forall x | x in initial[k]
      ensures x in relaxed
    {
      assert x !in initial[k] - relaxed;
    }
  }

  /** A component reporting success releases every component waiting on it. */
  lemma RelaxKeepsTracks(initial: Table, table: Table, relaxed: set<Hash>, dispatched: set<Hash>, hash: Hash)
    requires Tracks(initial, table, relaxed, dispatched)
    ensures Tracks(initial, Relaxed(table, hash), relaxed + {hash}, dispatched)
  {
  }
}
