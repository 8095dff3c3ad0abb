/** Properties that relate two or more registry calls: open and close as
    inverses, the name being released by `CloseStream` but not by `Close`,
    and the iteration order mattering to `Close` only for which streams it
    reaches before the first failure. */
module RegistryProperties {
  import opened Errors
  import opened Streams
  import opened Registry

  /** A fresh registry accepts any name, for either direction. */
  lemma NewStreamerOpensAnyName(writeKey: string, readKey: string, name: string)
    ensures OpenRead(NewStreamer(writeKey, readKey), name).out.Ok?
    ensures OpenWrite(NewStreamer(writeKey, readKey), name).out.Ok?
  {
  }

  /** Opening a name twice without a close in between, in either direction
      each time: the second open fails and the first handle stays
      registered, untouched. */
  lemma SecondOpenFails(s: Streamer, name: string, firstIsWrite: bool, secondIsWrite: bool)
    requires name !in s.streams
    ensures var first := if firstIsWrite then OpenWrite(s, name) else OpenRead(s, name);
            var second := if secondIsWrite then OpenWrite(first.next, name) else OpenRead(first.next, name);
            && second.out == Err(StreamAlreadyExists)
            && second.next.streams[name] == first.out.value
  {
  }

  /** Open then a successful `CloseStream` gives back the registry it
      started from: the two are inverses. */
  lemma OpenThenCloseRestores(s: Streamer, name: string, isWrite: bool, closer: Closer)
    requires name !in s.streams
    requires closer(if isWrite then NewWriteStream(s.writeKey, name) else NewReadStream(name)).Pass?
    ensures var open := if isWrite then OpenWrite(s, name) else OpenRead(s, name);
            var closed := CloseStream(open.next, name, closer);
            closed.out == Pass && closed.next == s
  {
    var open := if isWrite then OpenWrite(s, name) else OpenRead(s, name);
    var closed := CloseStream(open.next, name, closer);
    assert closed.next.streams == s.streams;
  }

  /** The copy adapters never close the stream they opened, even when the
      copy fails: the name stays registered, and every later open or copy
      under it is refused at its open, before any copying. */
  lemma CopyLeavesNameTaken(s: Streamer, name: string, copied: Outcome, copiedAgain: Outcome)
    requires name !in s.streams
    ensures name in WriteTo(s, name, copied).next.streams
    ensures name in ReadFrom(s, name, copied).next.streams
    ensures OpenRead(WriteTo(s, name, copied).next, name).out == Err(StreamAlreadyExists)
    ensures OpenWrite(WriteTo(s, name, copied).next, name).out == Err(StreamAlreadyExists)
    ensures WriteTo(WriteTo(s, name, copied).next, name, copiedAgain).out == Fail(StreamAlreadyExists)
    ensures ReadFrom(WriteTo(s, name, copied).next, name, copiedAgain).out == Fail(StreamAlreadyExists)
    ensures OpenRead(ReadFrom(s, name, copied).next, name).out == Err(StreamAlreadyExists)
    ensures OpenWrite(ReadFrom(s, name, copied).next, name).out == Err(StreamAlreadyExists)
    ensures WriteTo(ReadFrom(s, name, copied).next, name, copiedAgain).out == Fail(StreamAlreadyExists)
    ensures ReadFrom(ReadFrom(s, name, copied).next, name, copiedAgain).out == Fail(StreamAlreadyExists)
  {
  }

  /** After a successful `CloseStream` the name is fully released: it can
      be opened again in either direction. After a failed one it cannot. */
  lemma CloseStreamReleasesName(s: Streamer, name: string, closer: Closer)
    requires name in s.streams
    ensures var closed := CloseStream(s, name, closer);
            && (closed.out.Pass? <==> OpenRead(closed.next, name).out.Ok?)
            && (closed.out.Pass? <==> OpenWrite(closed.next, name).out.Ok?)
  {
  }

  /** `Close` never releases a name: whatever its outcome, every name that
      was registered still refuses to be opened again. */
  lemma CloseKeepsNamesTaken(s: Streamer, order: seq<string>, closer: Closer, name: string)
    requires IterationOrder(s, order)
    requires name in s.streams
    ensures OpenRead(Close(s, order, closer).next, name).out == Err(StreamAlreadyExists)
    ensures OpenWrite(Close(s, order, closer).next, name).out == Err(StreamAlreadyExists)
  {
  }

  /** Whether `Close` succeeds does not depend on the iteration order, and
      when it succeeds neither does the registry it leaves behind: only a
      failure's error and the set of streams reached before it do. */
  lemma CloseOrderMattersOnlyOnFailure(s: Streamer, order1: seq<string>, order2: seq<string>, closer: Closer)
    requires IterationOrder(s, order1) && IterationOrder(s, order2)
    ensures Close(s, order1, closer).out.Pass? <==> Close(s, order2, closer).out.Pass?
    ensures Close(s, order1, closer).out.Pass? ==>
      Close(s, order1, closer).next == Close(s, order2, closer).next
  {
    var r1 := Close(s, order1, closer);
    var r2 := Close(s, order2, closer);
    if r1.out.Pass? {
      assert r1.next.streams == r2.next.streams;
    }
  }

  /** The bytes of "hello\n". */
  const Hello: Chunk := [104, 101, 108, 108, 111, 10]

  /** A reader that opened "logs" sees exactly the body routed to "logs". */
  lemma RoutedBodyReachesReader()
    ensures var open := OpenRead(NewStreamer("w", "r"), "logs");
            var routed := WriteMessage(open.next, Message("logs", Hello));
            && routed.out == Pass
            && routed.next.streams["logs"].queue == [Hello]
  {
  }

  /** A registry holding read streams "a", "b" and "c". */
  function ThreeStreams(): Streamer {
    Register(Register(Register(NewStreamer("w", "r"),
      NewReadStream("a")), NewReadStream("b")), NewReadStream("c"))
  }

  /** Stream closes that fail for the stream called `bad` only. */
  function FailsOn(bad: string): Closer {
    (st: Stream) => if st.name == bad then Fail(IoError(bad)) else Pass
  }

  /** Closing {"a", "b", "c"} in that order when "b" fails: "a" is closed,
      the error for "b" is returned, and "b" and "c" stay registered and
      open. "a" stays registered too, since `Close` never deletes. */
  lemma CloseStopsAtFailingStream()
    ensures IterationOrder(ThreeStreams(), ["a", "b", "c"])
    ensures var r := Close(ThreeStreams(), ["a", "b", "c"], FailsOn("b"));
      && r.out == Fail(IoError("b"))
      && r.next.streams.Keys == {"a", "b", "c"}
      && r.next.streams["a"].closed
      && !r.next.streams["b"].closed
      && !r.next.streams["c"].closed
      && r.next.streams["b"] == ThreeStreams().streams["b"]
      && r.next.streams["c"] == ThreeStreams().streams["c"]
  {
    var s := ThreeStreams();
    var order := ["a", "b", "c"];
    assert IterationOrder(s, order);
    var r := Close(s, order, FailsOn("b"));
    var k :| StoppedAt(s, r.next, r.out, order, FailsOn("b"), k);
    assert k == 1;
    assert r.next.streams[order[0]] == MarkClosed(s.streams[order[0]]);
    assert r.next.streams[order[1]] == s.streams[order[1]];
    assert r.next.streams[order[2]] == s.streams[order[2]];
  }
}
