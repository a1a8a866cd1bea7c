/**
 * The backend registry (backend.go): admission control, container
 * creation and destruction, lookup, property filtering and shutdown,
 * as pure state-passing functions over a map from handle to container.
 *
 * The registry lock is left out: every operation below is one atomic step
 * on the `Backend` value. File-system effects and stopping a container's
 * processes are inputs that say whether the effect succeeded.
 */
module Registry {
  import opened Wrappers
  import opened Words
  import opened ContainerIds

  /** The property a container gets once its process has exited. */
  const ExitStatusKey: string := "concourse:exit-status"

  /** `Capacity().MaxContainers`: at most one active container. */
  const MaxContainers: nat := 1

  type Properties = map<string, string>

  /** A container as the registry sees it. */
  datatype Container = Container(handle: string, properties: Properties, workDir: string)

  /** The part of `garden.ContainerSpec` the registry reads. */
  datatype ContainerSpec = ContainerSpec(handle: string, properties: Properties)

  datatype Backend = Backend(
    containersDir: string,
    containers: map<string, Container>,
    containerNum: Uint32)

  datatype Error =
    | NotFound          // ErrContainerNotFound
    | WorkerNotCreated  // atc.WorkerNotCreatedError
    | IOFail            // fs.MkdirAll or fs.RemoveAll failed
    | StopFailed        // container.Stop failed

  /** Whether each of Destroy's two effects succeeds for a container. */
  datatype Teardown = Teardown(stopOk: bool, removeOk: bool)

  /** The registry after an operation, and what the operation returned. */
  datatype Step<T> = Step(next: Backend, result: Result<T, Error>)

  /** `NewBackend`, with the clock-derived counter seed passed in. */
  function NewBackend(containersDir: string, seed: Uint32): (r: Backend)
    ensures r.containers == map[] && r.containerNum == seed && r.containersDir == containersDir
    ensures Consistent(r) && Admits(r)
  {
    assert ActiveHandles(map[]) == {};
    Backend(containersDir, map[], seed)
  }

  /** `filepath.Join(dir, name)` for a clean directory and a single path element. */
  function JoinPath(dir: string, name: string): string {
    dir + "/" + name
  }

  /** Every container is stored under its own handle. */
  predicate Keyed(m: map<string, Container>) {
    forall h :: h in m ==> m[h].handle == h
  }

  predicate Consistent(b: Backend) {
    Keyed(b.containers)
  }

  // ---------------------------------------------------------------------
  // Admission control.

  predicate IsActive(c: Container) {
    ExitStatusKey !in c.properties
  }

  /** Handles of the containers that have not recorded an exit status. */
  function ActiveHandles(m: map<string, Container>): set<string> {
    set h | h in m && IsActive(m[h])
  }

  /** The counting loop of `Create`, over the map in any order. */
  method CountActive(m: map<string, Container>) returns (count: nat)
    ensures count == |ActiveHandles(m)|
    ensures count <= |m|
  {
    count := 0;
    var todo := m.Keys;
    while todo != {}
      invariant todo <= m.Keys
      invariant count == |ActiveHandles(m) - todo|
      decreases todo
    {
      var h :| h in todo;
      WalkOne(ActiveHandles(m), todo, h);
      if IsActive(m[h]) {
        count := count + 1;
      }
      todo := todo - {h};
    }
    assert ActiveHandles(m) <= m.Keys;
    SubsetCardinality(ActiveHandles(m), m.Keys);
  }

  /** Taking `h` off the to-do set adds it to the walked part of `s` exactly when it is in `s`. */
  lemma WalkOne<T>(s: set<T>, todo: set<T>, h: T)
    requires h in todo
    ensures h in s ==> s - (todo - {h}) == (s - todo) + {h} && h !in s - todo
    ensures h !in s ==> s - (todo - {h}) == s - todo
  {
  }

  lemma SubsetCardinality<T>(a: set<T>, b: set<T>)
    requires a <= b
    ensures |a| <= |b|
  {
    assert b == a + (b - a);
  }

  predicate Admits(b: Backend) {
    |ActiveHandles(b.containers)| < MaxContainers
  }

  // ---------------------------------------------------------------------
  // Create, Destroy, Lookup.

  /**
   * `Create`: refuse when the active containers have reached capacity;
   * otherwise take a fresh id, make the directory named by that id (even
   * when the caller chose the handle), and store the container under the
   * handle, replacing any container already stored there.
   */
  function Create(b: Backend, spec: ContainerSpec, mkdirOk: bool): (s: Step<Container>)
    ensures s.result == Failure(WorkerNotCreated) <==> !Admits(b)
    ensures !Admits(b) ==> s.next == b
    ensures Admits(b) ==> s.next.containerNum == Inc(b.containerNum)
    ensures s.next.containersDir == b.containersDir
    ensures Admits(b) && !mkdirOk ==> s.result == Failure(IOFail) && s.next.containers == b.containers
    ensures s.result.Success? <==> Admits(b) && mkdirOk
    ensures s.result.Success? ==>
              var c := s.result.value;
              var id := EncodeId(s.next.containerNum);
              && c.handle == (if spec.handle == "" then id else spec.handle)
              && c.workDir == JoinPath(b.containersDir, id)
              && c.properties == spec.properties
              && c.handle in s.next.containers && s.next.containers[c.handle] == c
              && (forall h :: h != c.handle ==>
                    (h in s.next.containers <==> h in b.containers))
              && (forall h :: h != c.handle && h in b.containers ==>
                    s.next.containers[h] == b.containers[h])
  {
    if !Admits(b) then
      Step(b, Failure(WorkerNotCreated))
    else
      var gen := GenerateContainerId(b.containerNum);
      var b' := b.(containerNum := gen.counter);
      var handle := if spec.handle == "" then gen.id else spec.handle;
      var dir := JoinPath(b.containersDir, gen.id);
      if !mkdirOk then
        Step(b', Failure(IOFail))
      else
        var c := Container(handle, spec.properties, dir);
        Step(b'.(containers := b.containers[handle := c]), Success(c))
  }

  /**
   * `Destroy`: an unknown handle is a silent success; otherwise stop the
   * container, then remove its directory, and only when both succeed drop
   * the entry.
   */
  function Destroy(b: Backend, handle: string, t: Teardown): (s: Step<()>)
    ensures handle !in b.containers ==> s == Step(b, Success(()))
    ensures s.result.Success? <==> handle !in b.containers || (t.stopOk && t.removeOk)
    ensures s.result.Success? ==> s.next.containers == b.containers - {handle}
    ensures s.result.Failure? ==> s.next == b
    ensures s.result.Failure? ==> s.result.error == (if t.stopOk then IOFail else StopFailed)
    ensures s.next.containerNum == b.containerNum && s.next.containersDir == b.containersDir
  {
    if handle !in b.containers then Step(b, Success(()))
    else if !t.stopOk then Step(b, Failure(StopFailed))
    else if !t.removeOk then Step(b, Failure(IOFail))
    else Step(b.(containers := b.containers - {handle}), Success(()))
  }

  /** `Lookup`: the container stored under the handle, or `NotFound`. */
  function Lookup(b: Backend, handle: string): (r: Result<Container, Error>)
    ensures r.Failure? <==> handle !in b.containers
    ensures r.Failure? ==> r.error == NotFound
    ensures r.Success? ==> handle in b.containers && r.value == b.containers[handle]
  {
    if handle in b.containers then Success(b.containers[handle]) else Failure(NotFound)
  }

  // ---------------------------------------------------------------------
  // Property filtering.

  /** Every filter key is present in `props` with the same value. */
  predicate IsSuperset(props: Properties, filter: Properties) {
    forall k :: k in filter ==> k in props && props[k] == filter[k]
  }

  /** `containerHasProperties`: scan the filter, failing on the first missing or different key. */
  method ContainerHasProperties(c: Container, filter: Properties) returns (ok: bool)
    ensures ok <==> IsSuperset(c.properties, filter)
  {
    var todo := filter.Keys;
    while todo != {}
      invariant todo <= filter.Keys
      invariant forall k :: k in filter && k !in todo ==>
                  k in c.properties && c.properties[k] == filter[k]
      decreases todo
    {
      var key :| key in todo;
      if key !in c.properties {
        return false;
      }
      if c.properties[key] != filter[key] {
        return false;
      }
      todo := todo - {key};
    }
    return true;
  }

  /** Handles of the containers whose properties include the filter. */
  function MatchingHandles(m: map<string, Container>, filter: Properties): set<string> {
    set h | h in m && IsSuperset(m[h].properties, filter)
  }

  /**
   * `Containers` / `filterContainers`: every container whose properties
   * include the filter, each once, in the order the map is walked.
   */
  method FilterContainers(b: Backend, filter: Properties) returns (matching: seq<Container>)
    ensures |matching| == |MatchingHandles(b.containers, filter)|
    ensures forall i :: 0 <= i < |matching| ==>
              matching[i] in b.containers.Values && IsSuperset(matching[i].properties, filter)
    ensures forall h :: h in MatchingHandles(b.containers, filter) ==> b.containers[h] in matching
    ensures Consistent(b) ==>
              forall i, j :: 0 <= i < j < |matching| ==> matching[i].handle != matching[j].handle
  {
    var m := b.containers;
    matching := [];
    // The handle each element of `matching` was read from.
    ghost var handles: seq<string> := [];
    var todo := m.Keys;
    while todo != {}
      invariant todo <= m.Keys
      invariant FilterInvariant(m, filter, todo, handles, matching)
      decreases todo
    {
      var h :| h in todo;
      var ok := ContainerHasProperties(m[h], filter);
      FilterStep(m, filter, todo, handles, matching, h);
      if ok {
        matching := matching + [m[h]];
        handles := handles + [h];
      }
      todo := todo - {h};
    }
    FilterDone(m, filter, handles, matching);
  }

  /**
   * What the filtering loop has built once the handles outside `todo` are
   * walked: `matching` holds the stored containers of the matching walked
   * handles, read through the distinct handles `handles`.
   */
  ghost predicate FilterInvariant(m: map<string, Container>, filter: Properties, todo: set<string>,
                                  handles: seq<string>, matching: seq<Container>) {
    && |matching| == |MatchingHandles(m, filter) - todo|
    && |handles| == |matching|
    && (forall i :: 0 <= i < |handles| ==>
          handles[i] in MatchingHandles(m, filter) && handles[i] !in todo && matching[i] == m[handles[i]])
    && (forall i, j :: 0 <= i < j < |handles| ==> handles[i] != handles[j])
    && (forall h :: h in MatchingHandles(m, filter) - todo ==> h in handles)
  }

  /** Walking one more handle keeps the loop's invariant. */
  lemma FilterStep(m: map<string, Container>, filter: Properties, todo: set<string>,
                   handles: seq<string>, matching: seq<Container>, h: string)
    requires h in todo && todo <= m.Keys
    requires FilterInvariant(m, filter, todo, handles, matching)
    ensures IsSuperset(m[h].properties, filter) ==>
              FilterInvariant(m, filter, todo - {h}, handles + [h], matching + [m[h]])
    ensures !IsSuperset(m[h].properties, filter) ==>
              FilterInvariant(m, filter, todo - {h}, handles, matching)
  {
    WalkOne(MatchingHandles(m, filter), todo, h);
  }

  /** Once every handle is walked the invariant gives the method's contract. */
  lemma FilterDone(m: map<string, Container>, filter: Properties, handles: seq<string>, matching: seq<Container>)
    requires FilterInvariant(m, filter, {}, handles, matching)
    ensures |matching| == |MatchingHandles(m, filter)|
    ensures forall i :: 0 <= i < |matching| ==> matching[i] in m.Values && IsSuperset(matching[i].properties, filter)
    ensures forall h :: h in MatchingHandles(m, filter) ==> m[h] in matching
    ensures Keyed(m) ==>
              forall i, j :: 0 <= i < j < |matching| ==> matching[i].handle != matching[j].handle
  {
  }

  // ---------------------------------------------------------------------
  // Shutdown.

  predicate TearsDown(t: Teardown) {
    t.stopOk && t.removeOk
  }

  /**
   * `Stop`: destroy every handle in `order` in turn, ignoring the errors.
   * `order` is the order `Containers(nil)` happened to return the handles
   * in; `teardown` says how each container's stop and removal turn out.
   */
  function Stop(b: Backend, order: seq<string>, teardown: string -> Teardown): (r: Backend)
    ensures forall h :: h in r.containers <==>
              h in b.containers && !(h in order && TearsDown(teardown(h)))
    ensures forall h :: h in r.containers ==> r.containers[h] == b.containers[h]
    ensures r.containerNum == b.containerNum && r.containersDir == b.containersDir
    decreases |order|
  {
    if |order| == 0 then b
    else Stop(Destroy(b, order[0], teardown(order[0])).next, order[1..], teardown)
  }

  // ---------------------------------------------------------------------
  // Properties relating several operations.

  /** Create keeps every container stored under its own handle. */
  lemma CreatePreservesConsistency(b: Backend, spec: ContainerSpec, mkdirOk: bool)
    requires Consistent(b)
    ensures Consistent(Create(b, spec, mkdirOk).next)
  {
  }

  /** Destroy keeps every container stored under its own handle. */
  lemma DestroyPreservesConsistency(b: Backend, handle: string, t: Teardown)
    requires Consistent(b)
    ensures Consistent(Destroy(b, handle, t).next)
  {
  }

  /** A second Destroy of the same handle succeeds and changes nothing, whatever its teardown. */
  lemma DestroyTwice(b: Backend, handle: string, t1: Teardown, t2: Teardown)
    requires Destroy(b, handle, t1).result.Success?
    ensures var b1 := Destroy(b, handle, t1).next;
      Destroy(b1, handle, t2) == Step(b1, Success(()))
  {
  }

  /** Lookup fails with NotFound after a successful Destroy of the same handle. */
  lemma LookupAfterDestroy(b: Backend, handle: string, t: Teardown)
    requires Destroy(b, handle, t).result.Success?
    ensures Lookup(Destroy(b, handle, t).next, handle) == Failure(NotFound)
  {
  }

  /** Lookup of a freshly created container's handle returns that container. */
  lemma LookupAfterCreate(b: Backend, spec: ContainerSpec)
    requires Create(b, spec, true).result.Success?
    ensures var s := Create(b, spec, true);
      Lookup(s.next, s.result.value.handle) == Success(s.result.value)
  {
  }

  /** Containers that carry the exit-status property never hold a capacity slot. */
  lemma ExitedContainersDoNotCount(b: Backend, spec: ContainerSpec, mkdirOk: bool)
    requires forall h :: h in b.containers ==> ExitStatusKey in b.containers[h].properties
    ensures Admits(b)
    ensures Create(b, spec, mkdirOk).result != Failure(WorkerNotCreated)
  {
    assert ActiveHandles(b.containers) == {};
  }

  /**
   * With capacity one, a Create on an empty registry succeeds, and a second
   * Create is refused while the first container has no exit status.
   */
  lemma SecondActiveCreateRefused(dir: string, seed: Uint32, spec1: ContainerSpec, spec2: ContainerSpec, mkdirOk: bool)
    requires ExitStatusKey !in spec1.properties
    ensures var s1 := Create(NewBackend(dir, seed), spec1, true);
      && s1.result.Success?
      && Create(s1.next, spec2, mkdirOk) == Step(s1.next, Failure(WorkerNotCreated))
  {
    var s1 := Create(NewBackend(dir, seed), spec1, true);
    assert ActiveHandles(map[]) == {};
    var c := s1.result.value;
    assert c.handle in ActiveHandles(s1.next.containers);
  }

  /**
   * Destroying the one container of a fresh registry frees its slot: the
   * next Create is admitted again.
   */
  lemma DestroyFreesSlot(dir: string, seed: Uint32, spec1: ContainerSpec, spec2: ContainerSpec, t: Teardown)
    requires TearsDown(t)
    ensures var s1 := Create(NewBackend(dir, seed), spec1, true);
      && s1.result.Success?
      && var s2 := Destroy(s1.next, s1.result.value.handle, t);
      && s2.result.Success?
      && s2.next.containers == map[]
      && Create(s2.next, spec2, true).result.Success?
  {
    var s1 := Create(NewBackend(dir, seed), spec1, true);
    assert ActiveHandles(map[]) == {};
    var s2 := Destroy(s1.next, s1.result.value.handle, t);
    assert s1.next.containers.Keys == {s1.result.value.handle};
    assert s2.next.containers.Keys == {};
  }

  /**
   * A caller-chosen handle that is already stored is overwritten: the old
   * container leaves the map without being stopped, and the new one's
   * directory is named by the generated id, not by the handle.
   */
  lemma CreateOverwritesExistingHandle(b: Backend, spec: ContainerSpec)
    requires spec.handle != "" && spec.handle in b.containers
    requires Create(b, spec, true).result.Success?
    ensures var s := Create(b, spec, true);
      && s.next.containers.Keys == b.containers.Keys
      && s.next.containers[spec.handle] == s.result.value
      && s.result.value.workDir == JoinPath(b.containersDir, EncodeId(Inc(b.containerNum)))
  {
  }

  /** A failed directory creation still uses up an id. */
  lemma FailedMkdirAdvancesCounter(b: Backend, spec: ContainerSpec)
    requires Admits(b)
    ensures var s := Create(b, spec, false);
      && s.result == Failure(IOFail)
      && s.next.containers == b.containers
      && s.next.containerNum != b.containerNum
  {
  }

  /** An empty filter matches every container. */
  lemma EmptyFilterMatchesAll(m: map<string, Container>)
    ensures MatchingHandles(m, map[]) == m.Keys
  {
  }

  /** When every handle is listed and every teardown succeeds, Stop empties the registry. */
  lemma StopEmptiesRegistry(b: Backend, order: seq<string>, teardown: string -> Teardown)
    requires forall h :: h in b.containers ==> h in order
    requires forall h :: h in order ==> TearsDown(teardown(h))
    ensures Stop(b, order, teardown).containers == map[]
  {
    var r := Stop(b, order, teardown);
    assert r.containers.Keys == {};
  }
}
