# Beam stream registry, modelled in Dafny

Beam multiplexes named byte streams over one pooled redis connection. At its
core is the `streamer` of `beam.go`, a registry that maps each stream name to
its open stream. It opens read and write streams under names that must be
unique. It routes inbound `Message`s to the stream their id names, or drops
them. It closes one stream, or all of them. The copy adapters `WriteTo` and
`ReadFrom` open a stream and then copy bytes through it.

This project models that registry as a sequential state machine over an
immutable `map<string, Stream>`. Every operation is a pure function that
returns the Go result together with the registry after the call
(`Step(out, next)`).

- `errors.dfy` (`Errors`): Go's `error`, `(T, error)` and bare `error`
  returns as `Error`, `Result<T>` and `Outcome`. `StreamAlreadyExists` is the
  registry's own sentinel. Every other error is opaque (`IoError`).
- `streams.dfy` (`Streams`): a stream as the registry sees it. It has a name
  and a direction: read, or write under the registry's write key. It has a
  FIFO queue of message bodies, which stands for the stream's channel, and a
  flag saying that its own Close succeeded. The outcome of a stream's Close is
  an oracle `Closer = Stream -> Outcome`.
- `registry.dfy` (`Registry`): the `streamer` state and its operations.
- `traces.dfy` (`Traces`): runs of operations, one at a time. It covers the
  uniqueness invariant, FIFO delivery per stream, and which opens in a run
  succeed.
- `properties.dfy` (`RegistryProperties`): lemmas that relate two calls, plus
  two end-to-end scenarios.

What the code does, as opposed to what a reader might expect:

- `Close` never deletes entries from the map. A stream whose close succeeded
  stays registered, marked closed, and its name cannot be opened again
  until a later `CloseStream` of it succeeds. `CloseKeepsNamesTaken` proves
  this.
- `Close` visits streams in Go's map iteration order, which is unspecified.
  The model takes that order as a parameter. It may be any listing of the
  registered names, each exactly once (`IterationOrder`).
- One might expect `Close` to remove the streams it closed and to visit them
  in a fixed (lexicographic) order, and the opens to refuse an empty name.
  The code does none of this. The model follows the code: no removal, any
  order, and any name (the empty name included).

## Model

| member | source | states |
|---|---|---|
| Registry.NewStreamer | beam.go:38-45 | A new registry keeps the given write and read keys, holds no stream, and satisfies the one-stream-per-name invariant |
| RegistryProperties.NewStreamerOpensAnyName | beam.go:38-67 | Any name can be opened, for reading or for writing, on a new registry |
| Registry.OpenRead | beam.go:47-56 | A registered name gives `ErrStreamAlreadyExists` and leaves the registry unchanged. Otherwise the result is a fresh read stream with an empty queue, bound under exactly that one new name, and every other entry is unchanged |
| Registry.OpenWrite | beam.go:58-67 | As `OpenRead`, except that the new stream writes under the registry's write key |
| Registry.WriteTo | beam.go:69-78 | An open error is returned and the registry is unchanged, so nothing is copied. Otherwise the copy's outcome is returned and the new read stream stays registered and is not closed |
| Registry.ReadFrom | beam.go:80-89 | An open error is returned and the registry is unchanged. Otherwise the copy's outcome is returned and the new write stream stays registered and is not closed |
| Registry.WriteMessage | beam.go:100-105 | Always returns nil. A message whose id is unregistered leaves the registry unchanged (it is dropped). Otherwise the body is appended to the back of that stream's queue, and nothing else changes |
| Registry.CloseStream | beam.go:107-116 | An unregistered name is a no-op that returns nil. For a registered name, a failed stream close is returned and the registry is unchanged. A successful close removes exactly that name and changes no other entry |
| Registry.CloseEach | beam.go:92-97 | Closes the streams in the given order. It returns nil exactly when every close succeeds, and then every stream is marked closed. Otherwise it returns the first failure, with every earlier stream closed and that stream and every later one untouched. No key is ever removed |
| Registry.Close | beam.go:91-98 | Over an iteration order of the whole map: returns nil exactly when every stream's close succeeds, and then marks every stream closed. Otherwise it stops at the first failure in iteration order. The key set never changes |
| Traces.Run | beam.go:47-116 | A run of registry calls returns one reply per call |
| Traces.ApplyPreservesValid | beam.go:47-116 | No single registry call breaks the invariant that each name is bound to the one stream of that name |
| Traces.RunPreservesValid | beam.go:47-116 | No run of registry calls breaks that invariant |
| Traces.RunDeliversInOrder | beam.go:100-105 | FIFO per stream: while a registered stream is never asked to close, it stays registered, and the bodies routed to it join its queue in routing order. No other call changes it |
| Traces.RunWithoutClosesKeepsNames | beam.go:47-105 | Without `CloseStream`, no name ever leaves the map |
| Traces.RunOfOpensRegisters | beam.go:47-67 | A run of opens registers exactly the names it asks for, on top of those already registered |
| Traces.RunOfOpensSucceeds | beam.go:47-67 | In a run of opens, an open succeeds exactly when its name was not registered at the start and no earlier open in the run used it. So of two opens of a name that was not registered at the start, exactly one succeeds |
| RegistryProperties.SecondOpenFails | beam.go:47-67 | Opening a name a second time, whichever direction each open asks for, fails with `ErrStreamAlreadyExists`, and the first handle stays registered, unchanged |
| RegistryProperties.OpenThenCloseRestores | beam.go:47-67 | An open followed by a successful `CloseStream` of the same name gives back the original registry |
| RegistryProperties.CopyLeavesNameTaken | beam.go:69-89 | After either copy adapter, whether its copy succeeded or failed, the name stays registered. Every later open or copy under it, of all four kinds, is refused at its open |
| RegistryProperties.CloseStreamReleasesName | beam.go:107-116 | After `CloseStream`, the name can be opened again in either direction exactly when the close succeeded |
| RegistryProperties.CloseKeepsNamesTaken | beam.go:91-98 | Right after `Close`, whatever its outcome, every name that was registered still refuses to be opened, in either direction |
| RegistryProperties.CloseOrderMattersOnlyOnFailure | beam.go:91-98 | Whether `Close` succeeds does not depend on the iteration order. When it succeeds, neither does the registry it leaves |
| RegistryProperties.RoutedBodyReachesReader | beam.go:47-105 | A stream opened for reading as "logs" holds exactly the one body routed to "logs" |
| RegistryProperties.CloseStopsAtFailingStream | beam.go:91-98 | Closing "a", "b", "c" in that order when only "b" fails: "b"'s error is returned, "a" is closed, and "b" and "c" are left exactly as they were. All three stay registered |

## Left out

- The redigo `redis.Pool` field and the `WriteKey`/`ReadKey` plumbing into
  redis are left out: they are external I/O. The keys are kept as plain
  strings, and a write stream records the write key it was opened with.
- The bodies of `NewReadStream`, `NewWriteStream` and `redisStream` are not
  part of this model. A stream is abstracted to a direction, a queue and a
  closed flag, and its `Close()` result is an oracle parameter.
- `io.Copy` in `WriteTo` and `ReadFrom` is byte I/O against an external reader
  or writer. Its result is an opaque `Outcome` parameter, and its effect on
  the stream's data is not modelled.
- Reading from a stream (consuming its queue) is left out: it lives in
  `redisStream`, which is not part of this model. FIFO delivery is stated on
  the queue.
- Registry.WriteMessage: appends even to a stream whose close already
  succeeded. The registry code does not check, and whether the channel send
  then blocks or panics depends on `redisStream`.
- Registry.WriteMessage: takes the message by value. In Go it is a
  `*Message`, and a nil message panics at `msg.Id`; that panic is not
  modelled. `msg.Body` is a slice shared with the caller, not a copy, so a
  caller that later changes it changes the queued body; the model queues a
  value.
- Registry.OpenRead and Registry.OpenWrite: hand back a value snapshot of
  the new stream. In Go the handle is the same pointer that the map holds,
  so a caller can call `Close()` on its handle directly. That marks the
  stream closed while its name stays registered, and it is not represented:
  the model only closes streams through `CloseStream` and `Close`.
- Go channel blocking, goroutines and the missing mutual exclusion around the
  map are left out. The model is sequential, one call at a time.
- The `DB` and `Streamer` interface declarations carry no behaviour and are
  left out.
- Traces.Run: `Close` is not an operation of a run. Its iteration order must
  list the map as it stands when `Close` runs. `Close` is covered by its own
  contract and lemmas instead.
