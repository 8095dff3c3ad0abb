/** Sequences of registry operations, one at a time, and what they do to the
    map as a whole: the uniqueness invariant, per-stream FIFO delivery, and
    which opens of a run succeed. `Close` is not an operation here; its
    iteration order is a permutation of the map at the time it runs, and it is
    covered by its own contract. */
module Traces {
  import opened Errors
  import opened Streams
  import opened Registry

  /** One call on the registry, with the outcomes of whatever it depends on
      outside the registry (a stream's Close, a byte copy). */
  datatype Op =
    | OpenReadOp(name: string)
    | OpenWriteOp(name: string)
    | WriteMessageOp(msg: Message)
    | CloseStreamOp(name: string, closer: Closer)
    | WriteToOp(name: string, copied: Outcome)
    | ReadFromOp(name: string, copied: Outcome)

  /** What one call returned. */
  datatype Reply = Opened(handle: Result<Stream>) | Returned(err: Outcome)

  function Apply(s: Streamer, op: Op): Step<Reply> {
    match op
    case OpenReadOp(name) => var r := OpenRead(s, name); Step(Opened(r.out), r.next)
    case OpenWriteOp(name) => var r := OpenWrite(s, name); Step(Opened(r.out), r.next)
    case WriteMessageOp(msg) => var r := WriteMessage(s, msg); Step(Returned(r.out), r.next)
    case CloseStreamOp(name, closer) => var r := CloseStream(s, name, closer); Step(Returned(r.out), r.next)
    case WriteToOp(name, copied) => var r := WriteTo(s, name, copied); Step(Returned(r.out), r.next)
    case ReadFromOp(name, copied) => var r := ReadFrom(s, name, copied); Step(Returned(r.out), r.next)
  }

  /** Performs `ops` in order; the replies come back in the same order. */
  function Run(s: Streamer, ops: seq<Op>): (r: Step<seq<Reply>>)
    ensures |r.out| == |ops|
    decreases |ops|
  {
    if ops == [] then Step([], s)
    else
      var first := Apply(s, ops[0]);
      var rest := Run(first.next, ops[1..]);
      Step([first.out] + rest.out, rest.next)
  }

  /** The bodies of the messages in `ops` addressed to `name`, in order. */
  function Delivered(ops: seq<Op>, name: string): seq<Chunk>
    decreases |ops|
  {
    if ops == [] then []
    else
      (if ops[0].WriteMessageOp? && ops[0].msg.id == name then [ops[0].msg.body] else [])
      + Delivered(ops[1..], name)
  }

  /** `ops` never asks to close the stream called `name`. */
  predicate NeverClosed(ops: seq<Op>, name: string) {
    forall i :: 0 <= i < |ops| ==> !(ops[i].CloseStreamOp? && ops[i].name == name)
  }

  /** `ops` holds only opens. */
  predicate OnlyOpens(ops: seq<Op>) {
    forall i :: 0 <= i < |ops| ==> ops[i].OpenReadOp? || ops[i].OpenWriteOp?
  }

  /** No call ever breaks "one stream per name, keyed by its own name". */
  lemma ApplyPreservesValid(s: Streamer, op: Op)
    requires Valid(s)
    ensures Valid(Apply(s, op).next)
  {
  }

  lemma {:induction false} RunPreservesValid(s: Streamer, ops: seq<Op>)
    requires Valid(s)
    ensures Valid(Run(s, ops).next)
    decreases |ops|
  {
    if ops != [] {
      ApplyPreservesValid(s, ops[0]);
      RunPreservesValid(Apply(s, ops[0]).next, ops[1..]);
    }
  }

  /** FIFO per stream: as long as a registered stream is not asked to close,
      whatever else happens, it stays registered and the bodies routed to it
      join its queue in routing order, and nothing else about it changes. */
  lemma {:induction false} RunDeliversInOrder(s: Streamer, ops: seq<Op>, name: string)
    requires name in s.streams
    requires NeverClosed(ops, name)
    ensures name in Run(s, ops).next.streams
    ensures Run(s, ops).next.streams[name]
         == s.streams[name].(queue := s.streams[name].queue + Delivered(ops, name))
    decreases |ops|
  {
    var st := s.streams[name];
    if ops == [] {
      assert st.(queue := st.queue + []) == st;
    } else {
      var first := Apply(s, ops[0]);
      assert NeverClosed(ops[1..], name) by {
        forall i | 0 <= i < |ops[1..]|
          ensures !(ops[1..][i].CloseStreamOp? && ops[1..][i].name == name)
        {
          assert ops[1..][i] == ops[i + 1];
        }
      }
      var head: seq<Chunk> :=
        if ops[0].WriteMessageOp? && ops[0].msg.id == name then [ops[0].msg.body] else [];
      assert name in first.next.streams;
      assert first.next.streams[name] == st.(queue := st.queue + head) by {
        assert !(ops[0].CloseStreamOp? && ops[0].name == name);
      }
      RunDeliversInOrder(first.next, ops[1..], name);
      assert st.queue + head + Delivered(ops[1..], name) == st.queue + Delivered(ops, name);
    }
  }

  /** Names only leave the map through `CloseStream`. */
  lemma {:induction false} RunWithoutClosesKeepsNames(s: Streamer, ops: seq<Op>)
    requires forall i :: 0 <= i < |ops| ==> !ops[i].CloseStreamOp?
    ensures s.streams.Keys <= Run(s, ops).next.streams.Keys
    decreases |ops|
  {
    if ops != [] {
      var first := Apply(s, ops[0]);
      assert s.streams.Keys <= first.next.streams.Keys;
      assert forall i :: 0 <= i < |ops[1..]| ==> ops[1..][i] == ops[i + 1];
      RunWithoutClosesKeepsNames(first.next, ops[1..]);
    }
  }

  /** The names a run of opens asks for. */
  ghost function OpenedNames(ops: seq<Op>): set<string>
    requires OnlyOpens(ops)
  {
    set i | 0 <= i < |ops| :: ops[i].name
  }

  lemma OpenedNamesCons(ops: seq<Op>)
    requires OnlyOpens(ops) && |ops| > 0
    ensures OnlyOpens(ops[1..])
    ensures OpenedNames(ops) == {ops[0].name} + OpenedNames(ops[1..])
  {
    var tail := ops[1..];
    assert forall i :: 0 <= i < |tail| ==> tail[i] == ops[i + 1];
    forall n | n in OpenedNames(ops)
      ensures n in {ops[0].name} + OpenedNames(tail)
    {
      var i :| 0 <= i < |ops| && ops[i].name == n;
      if i > 0 {
        assert tail[i - 1] == ops[i];
      }
    }
  }

  /** A run of opens registers exactly the names it asked for. */
  lemma {:induction false} RunOfOpensRegisters(s: Streamer, ops: seq<Op>)
    requires OnlyOpens(ops)
    ensures Run(s, ops).next.streams.Keys == s.streams.Keys + OpenedNames(ops)
    decreases |ops|
  {
    if ops != [] {
      var first := Apply(s, ops[0]);
      assert first.next.streams.Keys == s.streams.Keys + {ops[0].name};
      OpenedNamesCons(ops);
      RunOfOpensRegisters(first.next, ops[1..]);
    }
  }

  /** In a run of opens, an open succeeds exactly when its name was not
      registered at the start and no earlier open in the run asked for it.
      Hence of two opens of a name that was not registered at the start,
      exactly one succeeds. */
  lemma {:induction false} RunOfOpensSucceeds(s: Streamer, ops: seq<Op>)
    requires OnlyOpens(ops)
    ensures forall i :: 0 <= i < |ops| ==> Run(s, ops).out[i].Opened?
    ensures forall i :: 0 <= i < |ops| ==>
      (Run(s, ops).out[i].handle.Ok?
       <==> ops[i].name !in s.streams && forall j :: 0 <= j < i ==> ops[j].name != ops[i].name)
    decreases |ops|
  {
    var r := Run(s, ops);
    if ops != [] {
      var first := Apply(s, ops[0]);
      var tail := ops[1..];
      OpenedNamesCons(ops);
      RunOfOpensSucceeds(first.next, tail);
      var rest := Run(first.next, tail);
      assert first.next.streams.Keys == s.streams.Keys + {ops[0].name};
      assert r.out == [first.out] + rest.out;
      forall i | 0 <= i < |ops|
        ensures r.out[i].Opened?
        ensures r.out[i].handle.Ok?
          <==> ops[i].name !in s.streams && forall j :: 0 <= j < i ==> ops[j].name != ops[i].name
      {
        if i > 0 {
          assert r.out[i] == rest.out[i - 1];
          assert tail[i - 1] == ops[i];
          assert (forall j :: 0 <= j < i - 1 ==> tail[j].name != tail[i - 1].name)
             <==> (forall j :: 1 <= j < i ==> ops[j].name != ops[i].name) by {
            assert forall j :: 0 <= j < i - 1 ==> tail[j] == ops[j + 1];
          }
        }
      }
    }
  }
}
