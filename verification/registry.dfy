/** The stream registry of beam.go: the `streamer` value with its map from
    stream name to stream, and the operations that read or change that map.
    Each operation is a pure transition that returns the Go return value
    together with the registry after the call. */
module Registry {
  import opened Errors
  import opened Streams

  /** The `streamer` struct. The redis pool it borrows is an external
      collaborator and is not part of the state. */
  datatype Streamer = Streamer(writeKey: string, readKey: string, streams: map<string, Stream>)

  /** An inbound message: `id` names the stream its body is routed to. */
  datatype Message = Message(id: string, body: Chunk)

  /** What an operation returns, and the registry after it. */
  datatype Step<+T> = Step(out: T, next: Streamer)

  /** Every entry is keyed by its own stream's name: one stream per name. */
  ghost predicate Valid(s: Streamer) {
    forall n :: n in s.streams ==> s.streams[n].name == n
  }

  /** The configured keys never change. */
  ghost predicate SameConfig(s: Streamer, s': Streamer) {
    s'.writeKey == s.writeKey && s'.readKey == s.readKey
  }

  /** Every entry of `m` other than `name` is in `m'`, bound to the same stream. */
  ghost predicate SameExcept(m: map<string, Stream>, m': map<string, Stream>, name: string) {
    forall n :: n in m && n != name ==> n in m' && m'[n] == m[n]
  }

  /** `s'` is `s` with exactly one more entry: `name`, bound to `st`. */
  ghost predicate Added(s: Streamer, s': Streamer, name: string, st: Stream) {
    && SameConfig(s, s')
    && s'.streams.Keys == s.streams.Keys + {name}
    && name in s'.streams && s'.streams[name] == st
    && SameExcept(s.streams, s'.streams, name)
  }

  /** `s'` is `s` without the entry for `name`, and otherwise the same. */
  ghost predicate Removed(s: Streamer, s': Streamer, name: string) {
    && SameConfig(s, s')
    && s'.streams.Keys == s.streams.Keys - {name}
    && SameExcept(s.streams, s'.streams, name)
  }

  /** `NewStreamer`: a registry with no streams. */
  function NewStreamer(writeKey: string, readKey: string): (s: Streamer)
    ensures Valid(s)
    ensures s.writeKey == writeKey && s.readKey == readKey
    ensures forall n :: n !in s.streams
  {
    Streamer(writeKey, readKey, map[])
  }

  /** Binds `st` under its own name. */
  function Register(s: Streamer, st: Stream): Streamer {
    s.(streams := s.streams[st.name := st])
  }

  /** `OpenRead`: refuses a name that is already registered, otherwise
      registers a fresh read stream under it and hands it back. */
  function OpenRead(s: Streamer, name: string): (r: Step<Result<Stream>>)
    ensures name in s.streams ==> r.out == Err(StreamAlreadyExists) && r.next == s
    ensures name !in s.streams ==>
      && r.out.Ok? && IsFresh(r.out.value, name) && r.out.value.direction == Read
      && Added(s, r.next, name, r.out.value)
    ensures Valid(s) ==> Valid(r.next)
  {
    if name in s.streams then Step(Err(StreamAlreadyExists), s)
    else
      var rs := NewReadStream(name);
      Step(Ok(rs), Register(s, rs))
  }

  /** `OpenWrite`: as `OpenRead`, but the new stream writes under the
      registry's write key. */
  function OpenWrite(s: Streamer, name: string): (r: Step<Result<Stream>>)
    ensures name in s.streams ==> r.out == Err(StreamAlreadyExists) && r.next == s
    ensures name !in s.streams ==>
      && r.out.Ok? && IsFresh(r.out.value, name) && r.out.value.direction == Write(s.writeKey)
      && Added(s, r.next, name, r.out.value)
    ensures Valid(s) ==> Valid(r.next)
  {
    if name in s.streams then Step(Err(StreamAlreadyExists), s)
    else
      var ws := NewWriteStream(s.writeKey, name);
      Step(Ok(ws), Register(s, ws))
  }

  /** `WriteTo`: opens a read stream for `name` and copies it out to an
      external writer. `copied` is the outcome of that copy. An open error is
      returned before any copying; on the success path the new stream stays
      registered and is not closed. */
  function WriteTo(s: Streamer, name: string, copied: Outcome): (r: Step<Outcome>)
    ensures name in s.streams ==> r.out == Fail(StreamAlreadyExists) && r.next == s
    ensures name !in s.streams ==>
      && r.out == copied
      && Added(s, r.next, name, NewReadStream(name))
      && !r.next.streams[name].closed
    ensures Valid(s) ==> Valid(r.next)
  {
    var attempt := OpenRead(s, name);
    match attempt.out
    case Err(e) => Step(Fail(e), attempt.next)
    case Ok(_) => Step(copied, attempt.next)
  }

  /** `ReadFrom`: opens a write stream for `name` and copies an external
      reader into it. `copied` is the outcome of that copy. */
  function ReadFrom(s: Streamer, name: string, copied: Outcome): (r: Step<Outcome>)
    ensures name in s.streams ==> r.out == Fail(StreamAlreadyExists) && r.next == s
    ensures name !in s.streams ==>
      && r.out == copied
      && Added(s, r.next, name, NewWriteStream(s.writeKey, name))
      && !r.next.streams[name].closed
    ensures Valid(s) ==> Valid(r.next)
  {
    var attempt := OpenWrite(s, name);
    match attempt.out
    case Err(e) => Step(Fail(e), attempt.next)
    case Ok(_) => Step(copied, attempt.next)
  }

  /** `WriteMessage`: routes the body to the stream named by the message id,
      or drops it when no such stream is registered. It never fails. */
  function WriteMessage(s: Streamer, msg: Message): (r: Step<Outcome>)
    ensures r.out == Pass
    ensures msg.id !in s.streams ==> r.next == s
    ensures msg.id in s.streams ==>
      && SameConfig(s, r.next)
      && r.next.streams.Keys == s.streams.Keys
      && Appended(s.streams[msg.id], r.next.streams[msg.id], msg.body)
      && SameExcept(s.streams, r.next.streams, msg.id)
    ensures Valid(s) ==> Valid(r.next)
  {
    if msg.id in s.streams then
      Step(Pass, s.(streams := s.streams[msg.id := Push(s.streams[msg.id], msg.body)]))
    else
      Step(Pass, s)
  }

  /** `CloseStream`: closes the named stream and forgets it, but only when
      its own Close succeeds; a failed close is returned and the stream stays
      registered. An unknown name is a no-op. */
  function CloseStream(s: Streamer, name: string, closer: Closer): (r: Step<Outcome>)
    ensures name !in s.streams ==> r.out == Pass && r.next == s
    ensures name in s.streams && closer(s.streams[name]).Fail? ==>
      r.out == closer(s.streams[name]) && r.next == s
    ensures name in s.streams && closer(s.streams[name]).Pass? ==>
      r.out == Pass && Removed(s, r.next, name)
    ensures Valid(s) ==> Valid(r.next)
  {
    if name in s.streams then
      var err := closer(s.streams[name]);
      if err.Pass? then Step(err, s.(streams := s.streams - {name}))
      else Step(err, s)
    else
      Step(Pass, s)
  }

  /** No name occurs twice. */
  predicate Distinct(names: seq<string>) {
    forall i, j :: 0 <= i < j < |names| ==> names[i] != names[j]
  }

  /** Every name is registered. */
  predicate AllRegistered(s: Streamer, names: seq<string>) {
    forall i :: 0 <= i < |names| ==> names[i] in s.streams
  }

  /** `order` lists every registered name exactly once: one possible order
      in which Go's `range` visits the map. */
  predicate IterationOrder(s: Streamer, order: seq<string>) {
    && Distinct(order)
    && AllRegistered(s, order)
    && forall n :: n in s.streams ==> n in order
  }

  /** The closes of `order[..k]` all succeeded and marked their streams
      closed in `s'`; the close of `order[k]` failed with `out`; and no
      stream from `order[k]` on was touched. */
  ghost predicate StoppedAt(s: Streamer, s': Streamer, out: Outcome, order: seq<string>,
                            closer: Closer, k: int)
    requires AllRegistered(s, order)
  {
    && 0 <= k < |order|
    && out.Fail?
    && out == closer(s.streams[order[k]])
    && (forall i :: 0 <= i < k ==>
          closer(s.streams[order[i]]).Pass?
          && order[i] in s'.streams
          && s'.streams[order[i]] == MarkClosed(s.streams[order[i]]))
    && (forall i :: k <= i < |order| ==>
          order[i] in s'.streams && s'.streams[order[i]] == s.streams[order[i]])
  }

  /** Closes the streams named in `order`, one after another, stopping at
      the first close that fails. Nothing is removed from the map. */
  function CloseEach(s: Streamer, order: seq<string>, closer: Closer): (r: Step<Outcome>)
    requires Distinct(order) && AllRegistered(s, order)
    ensures SameConfig(s, r.next)
    ensures r.next.streams.Keys == s.streams.Keys
    ensures forall n :: n in s.streams && n !in order ==> r.next.streams[n] == s.streams[n]
    ensures r.out.Pass? <==> forall i :: 0 <= i < |order| ==> closer(s.streams[order[i]]).Pass?
    ensures r.out.Pass? ==>
      forall i :: 0 <= i < |order| ==> r.next.streams[order[i]] == MarkClosed(s.streams[order[i]])
    ensures r.out.Fail? ==> exists k :: StoppedAt(s, r.next, r.out, order, closer, k)
    decreases |order|
  {
    if order == [] then Step(Pass, s)
    else
      var st := s.streams[order[0]];
      var err := closer(st);
      if err.Fail? then
        assert StoppedAt(s, s, err, order, closer, 0);
        Step(err, s)
      else
        var s1 := s.(streams := s.streams[order[0] := MarkClosed(st)]);
        assert forall i :: 1 <= i < |order| ==> s1.streams[order[i]] == s.streams[order[i]];
        var r := CloseEach(s1, order[1..], closer);
        CloseEachShift(s, s1, r, order, closer);
        r
  }

  /** A failure that stopped `CloseEach` on `order[1..]`, run from `s1`,
      also stopped it one position later on `order`, run from `s`, when `s1`
      is `s` after the successful close of `order[0]`. */
  lemma CloseEachShift(s: Streamer, s1: Streamer, r: Step<Outcome>, order: seq<string>, closer: Closer)
    requires Distinct(order) && AllRegistered(s, order) && |order| > 0
    requires closer(s.streams[order[0]]).Pass?
    requires s1.streams == s.streams[order[0] := MarkClosed(s.streams[order[0]])]
    requires AllRegistered(s1, order[1..])
    requires r.next.streams.Keys == s1.streams.Keys
    requires forall n :: n in s1.streams && n !in order[1..] ==> r.next.streams[n] == s1.streams[n]
    requires r.out.Fail? ==> exists k :: StoppedAt(s1, r.next, r.out, order[1..], closer, k)
    ensures r.out.Fail? ==> exists k :: StoppedAt(s, r.next, r.out, order, closer, k)
  {
    if r.out.Fail? {
      var k :| StoppedAt(s1, r.next, r.out, order[1..], closer, k);
      assert forall i :: 1 <= i < |order| ==> order[i] != order[0];
      assert r.next.streams[order[0]] == MarkClosed(s.streams[order[0]]);
      assert StoppedAt(s, r.next, r.out, order, closer, k + 1) by {
        forall i | 1 <= i < |order|
          ensures s1.streams[order[i]] == s.streams[order[i]]
        {
        }
        forall i | 1 <= i < k + 1
          ensures order[i] in r.next.streams
          ensures r.next.streams[order[i]] == MarkClosed(s.streams[order[i]])
        {
          assert order[1..][i - 1] == order[i];
        }
      }
    }
  }

  /** `Close`: closes every registered stream in the map's iteration order
      `order` and returns the first error, leaving the streams after it
      untouched. Closed streams stay registered. */
  function Close(s: Streamer, order: seq<string>, closer: Closer): (r: Step<Outcome>)
    requires IterationOrder(s, order)
    ensures SameConfig(s, r.next)
    ensures r.next.streams.Keys == s.streams.Keys
    ensures r.out.Pass? <==> forall n :: n in s.streams ==> closer(s.streams[n]).Pass?
    ensures r.out.Pass? ==>
      forall n :: n in s.streams ==> r.next.streams[n] == MarkClosed(s.streams[n])
    ensures r.out.Fail? ==> exists k :: StoppedAt(s, r.next, r.out, order, closer, k)
    ensures Valid(s) ==> Valid(r.next)
  {
    CloseEach(s, order, closer)
  }
}
