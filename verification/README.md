# Houdini backend: a Dafny model

Houdini is a Garden backend that runs containers as plain processes on the
host, without isolation. This project models the core of that backend:

- the registry of containers (`backend.go`): admission control against the
  capacity of one active container, `Create`, `Destroy`, `Lookup`, property
  filtering (`Containers`, `filterContainers`, `containerHasProperties`) and
  shutdown (`Stop`);
- container handle generation (`generateContainerID`): a 32-bit wrap-around
  counter written as eleven base-32 digits;
- the identity switch that runs a process as another user (`set_user.go`
  `setUser`): user lookup, the decimal parse of the uid and gid with
  `strconv.ParseUint(s, 10, 32)`, re-owning the working directory, the
  process credential and the rewrite of the `USER`, `USERNAME` and `HOME`
  environment variables.

Every operation is a pure function or method over immutable values. The
registry is a `Backend` value holding a map from handle to container, and
each operation returns the next `Backend` together with its result. Effects
the model cannot see are inputs saying whether they succeeded:
`fs.MkdirAll`, `fs.RemoveAll`, stopping a container's processes, and the
recursive chown. `user.Lookup` is a map from user name to user record. The
clock-derived seed of the counter is a parameter of `NewBackend`.

Files:

- `wrappers.dfy`: `Option` and `Result`.
- `words.dfy`: 32-bit unsigned integers.
- `container_ids.dfy`: id generation. Also proves that an id decodes to its
  counter value, that encoding is injective, and that successive ids are
  distinct until the counter wraps.
- `registry.dfy`: the backend registry.
- `decimal.dfy`: `strconv.ParseUint(s, 10, 32)` and its inverse formatting.
- `identity.dfy`: `setUser`.

Three behaviours of the code are worth knowing when reading the model:

- A container's working directory is named after the generated id, not
  after the handle, even when the caller chose the handle (`backend.go:91`).
- `Create` with a caller-chosen handle that is already registered replaces
  the old entry without stopping it (`backend.go:98-99`).
- `Destroy` asks the container to stop without force (`backend.go:113`). In
  this model that stop is only a success/failure input.

## Model

| member | source | states |
|---|---|---|
| `ContainerIds.Inc` | backend.go:168 | the atomic increment always changes the counter: it is n+1 below 2^32-1 and wraps to 0 at 2^32-1 |
| `ContainerIds.DigitValue` | backend.go:174-177 | a character accepted as a base-32 digit has a value below 32, and that value's digit is the same character |
| `ContainerIds.GenerateContainerId` | backend.go:167-182 | one generation advances the counter by exactly one increment and yields an eleven-character id |
| `ContainerIds.GeneratedIdEncodesNewCounter` | backend.go:167-182 | the id returned reads back as the incremented counter, never as the counter before the call; it consists of alphabet digits and its first four are `0` |
| `ContainerIds.EncodeId` | backend.go:170-181 | the digit loop yields exactly eleven characters, one per shift 50, 45, ..., 0; what they are is stated by `EncodeIdShape`, `DecodeEncode`, `EncodeInjective` and `EncodeDecode` below |
| `ContainerIds.EncodeIdShape` | backend.go:172-179 | the digit loop writes only characters of strconv's base-32 alphabet, and the first four shifts (50, 45, 40, 35) always give `0` for a 32-bit counter |
| `ContainerIds.DecodeEncode` | backend.go:172-179 | reading the eleven digits back, most significant first, gives exactly the counter value they were written from, so the 5-bit groups cover all 32 bits |
| `ContainerIds.EncodeInjective` | backend.go:172-179 | two counter values get the same id if and only if they are equal |
| `ContainerIds.EncodeDecode` | backend.go:172-179 | any eleven-digit handle whose value is a 32-bit number is exactly the id generated for that number |
| `ContainerIds.GenerateIdsAt` | backend.go:167-182 | the i-th of successive generations returns the id of the seed counter advanced i+1 times modulo 2^32 |
| `ContainerIds.GeneratedIdsUnique` | backend.go:167-182 | up to 2^32 successive generations never return the same id twice |
| `Registry.NewBackend` | backend.go:29-37 | a new backend has no containers, keeps the given directory, starts its counter at the seed, stores every container under its own handle and admits a Create |
| `Registry.CountActive` | backend.go:74-79 | the counting loop finds exactly the number of containers without an exit-status property, which is at most the number of containers |
| `Registry.Create` | backend.go:65-102 | refused with WorkerNotCreated exactly when the active count has reached the capacity of one, leaving the registry untouched; otherwise the counter advances even if mkdir fails; the container gets the generated id as its handle unless the caller chose one, a working directory named by the id and the spec's properties; it is stored under its handle and no other entry changes |
| `Registry.Destroy` | backend.go:104-126 | an unknown handle is a silent success that changes nothing; the entry is removed only when both the stop and the directory removal succeed; a failed stop is reported before a failed removal and leaves the registry as it was |
| `Registry.Lookup` | backend.go:155-165 | fails with NotFound exactly when the handle is not registered, and otherwise returns the container stored under it |
| `Registry.ContainerHasProperties` | backend.go:184-199 | true exactly when every filter key is present in the container's properties with an equal value |
| `Registry.FilterContainers` | backend.go:128-145 | returns every registered container whose properties include the filter and nothing else, as many as there are matching handles; when every container is stored under its own handle, no container appears twice |
| `Registry.EmptyFilterMatchesAll` | backend.go:135-145 | an empty filter (the `nil` that `Stop` and `Containers(nil)` pass) matches every registered container |
| `Registry.Stop` | backend.go:43-49 | after destroying each listed handle in turn, a container remains exactly when it was registered and was not both listed and torn down; remaining entries, the counter and the directory are unchanged |
| `Registry.CreatePreservesConsistency` | backend.go:98-99 | Create keeps every container stored under its own handle |
| `Registry.DestroyPreservesConsistency` | backend.go:123 | Destroy keeps every container stored under its own handle |
| `Registry.DestroyTwice` | container_test.go:62 | after a successful Destroy, destroying the same handle again succeeds and changes nothing, however the teardown would go |
| `Registry.LookupAfterDestroy` | backend.go:155-165 | Lookup fails with NotFound for a handle that was just destroyed |
| `Registry.LookupAfterCreate` | backend.go:98-101 | Lookup of a freshly created container's handle returns that container |
| `Registry.ExitedContainersDoNotCount` | backend.go:74-83 | containers that carry the exit-status property never hold a slot: a registry holding only such containers admits every Create, whatever the spec and however many of them there are |
| `Registry.SecondActiveCreateRefused` | backend.go:59-83 | on a fresh registry the first Create succeeds and a second is refused while the first has no exit status |
| `Registry.DestroyFreesSlot` | container_test.go:62-64 | destroying the only container of a fresh registry empties it, and the next Create is admitted again |
| `Registry.CreateOverwritesExistingHandle` | backend.go:87-99 | a caller-chosen handle that is already registered is overwritten in place, and the new directory is named by the generated id |
| `Registry.FailedMkdirAdvancesCounter` | backend.go:85-96 | an admitted Create whose mkdir fails returns that error, adds no container, and still uses up an id |
| `Registry.StopEmptiesRegistry` | backend.go:43-49 | when every registered handle is listed and every teardown succeeds, Stop leaves the registry empty |
| `Decimal.ParseUint32` | set_user.go:22-29 | succeeds exactly on non-empty all-digit text whose value fits in 32 bits, returning that value; empty text is a syntax error; scanning left to right, a non-digit reached before the value passes 2^32-1 is a syntax error, and a digit prefix whose value passes 2^32-1 is a range error even when a non-digit follows |
| `Decimal.ParseDigits` | set_user.go:22-29 | the digit loop succeeds exactly when the whole text is digits of a 32-bit value; it reports a syntax error at the first non-digit when no earlier digit prefix overflowed, and a range error whenever some digit prefix overflows, whatever follows |
| `Decimal.ParseFormat` | set_user.go:22-29 | the parse of the shortest decimal text of any 32-bit value gives that value back |
| `Identity.DropIdentity` | set_user.go:46-52 | the filter keeps every entry that does not start with `USER=`, `USERNAME=` or `HOME=`, in order, and drops every entry that does |
| `Identity.RewriteEnv` | set_user.go:42-56 | the new environment is the old one's non-identity entries in their original order, followed by `USER`, `USERNAME` and `HOME` for the target user |
| `Identity.IdentityEntriesAreIdentity` | set_user.go:53-55 | the three appended entries match the identity patterns |
| `Identity.RewriteIdempotent` | set_user.go:42-56 | rewriting twice for the same user gives the same environment as rewriting once |
| `Identity.RewriteSetsEachVariableOnce` | set_user.go:42-56 | after the rewrite, each of `USER=`, `USERNAME=` and `HOME=` starts exactly one entry |
| `Identity.RewriteCarriesUserValues` | set_user.go:42-56 | every entry with an identity prefix carries the target user's name or home directory |
| `Identity.SetUser` | set_user.go:17-59 | an unknown user, a bad uid (checked first, carrying the parse's own error kind), a bad gid (likewise) or a failed chown each return their own error and leave the command untouched; the chown error is returned exactly when the lookup and both parses succeed and the chown fails; otherwise the command gets the parsed uid and gid as its credential and the rewritten environment |

## Left out

- The registry lock and the atomic counter update: each operation is one atomic step on an immutable `Backend` value.
- The clock: `NewBackend` takes the counter seed as a parameter instead of reading the time.
- File-system effects (`MkdirAll` in `Create`, `RemoveAll` in `Destroy`) are success/failure inputs; the specific I/O error is collapsed to `IOFail`.
- `filepath.Join` is modelled as `dir + "/" + id`; its path cleaning is not modelled.
- container.go is not part of this model. The container runtime (`Run`, `Attach`, streaming, grace time, property updates, `Stop` with or without force) is left out. Stopping a container is only a success/failure input, and a new container is assumed to keep the spec's handle and properties.
- `BulkInfo`, `BulkMetrics` and `Ping` return constants and `GraceTime` calls into the container runtime; they are not modelled.
- `Start` (backend.go:39-41) only creates the containers directory with `MkdirAll`; it touches no registry state and is not modelled.
- Registry.Stop: Go's map iteration order is unspecified, so the order in which `Containers(nil)` lists the handles is a parameter, and whether each teardown succeeds is a function of the handle. Destroy's errors are ignored, as in the code.
- Registry.FilterContainers: the result order is the order the map happens to be walked; the contract states the result's contents and multiplicity, not its order.
- `chownR` walks the directory tree and changes the owner of every file; that walk is a success/failure input. The model passes the parsed uid and gid to it unchanged. Go's `int(uid)` conversion is exact on 64-bit platforms; where `int` is 32 bits wide (for example linux/386 or linux/arm) a uid or gid of 2^31 or more becomes negative, and that wrap is not modelled.
- `user.Lookup` is a map from user name to `User`; its other failure modes (an unreadable user database) are not modelled apart from "unknown user".
- Identity.SetUser: `SysProcAttr` is reduced to its credential; the model does not state that other process attributes are discarded.
- `strconv.ParseUint` error values carry the function name and input text; the model keeps only the kind, `ErrSyntax` or `ErrRange`.
- The Windows variants of the backend are not modelled; `set_user.go` is built for other systems only.
