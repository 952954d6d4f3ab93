/** Values shared by every part of the scheduler model: component fingerprints,
    the orientation of a run and the per-component record the scheduler reads. */
module Types {

  /** A component's fingerprint: the MD5 hash of its declaration path. */
  type Hash = string

  /** A directory path as written in a component's `dependsOn` list. */
  type Path = string

  datatype Option<+T> = None | Some(value: T)

  datatype Result<+T, +E> = Ok(value: T) | Err(error: E)

  /** `Dictionary.DIRECTION`; `Unset` stands for the `null` default of a run. */
  datatype Direction = Forward | Reverse | Bidirectional | Unset

  /** The `distributor` field of a component; `Unrecognised` is every other value,
      including a missing one. */
  datatype Backend = Local | Lambda | Fargate | Unrecognised

  /** One component of the configuration object that the scheduler receives: its
      `dependsOn` is already the set of fingerprints it depends on. */
  datatype Node = Node(name: string, dependsOn: set<Hash>, distributor: Backend)

  /** Fingerprint -> component. */
  type Tree = map<Hash, Node>

  /** The elements of a sequence as a set. */
  function Elements<T>(s: seq<T>): set<T>
  {
    set x | x in s
  }

  /** Appending an element adds it to the set of elements. */
  lemma ElementsAppend<T>(s: seq<T>, x: T)
    ensures Elements(s + [x]) == Elements(s) + {x}
  {
    assert forall y :: y in s + [x] <==> y in s || y == x;
  }

  /** A sequence with no elements is empty. */
  lemma NoElementsIsEmpty<T>(s: seq<T>)
    ensures Elements(s) == {} ==> s == []
  {
    if s != [] {
      assert s[0] in Elements(s);
    }
  }

  /** No element occurs twice. */
  predicate Distinct<T(==)>(s: seq<T>)
  {
    forall i, j :: 0 <= i < j < |s| ==> s[i] != s[j]
  }
}
