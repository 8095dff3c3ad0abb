/** The stream bodies, modelled abstractly: what a registered stream is, as far
    as the registry can observe it. The channel that carries routed message
    bodies is a FIFO queue of chunks; the backing connection is left out. */
module Streams {
  import opened Errors

  newtype byte = x: int | 0 <= x < 256

  /** One message body. */
  type Chunk = seq<byte>

  /** A read stream, or a write stream bound to the registry's write key. */
  datatype Direction = Read | Write(writeKey: string)

  /** A registered stream: its name, its direction, the bodies routed to it
      and not yet consumed (oldest first), and whether its Close succeeded. */
  datatype Stream = Stream(name: string, direction: Direction, queue: seq<Chunk>, closed: bool)

  /** The outcome of a stream's own Close, which the registry cannot see into. */
  type Closer = Stream -> Outcome

  /** A stream as it is right after it was created for `name`. */
  predicate IsFresh(st: Stream, name: string) {
    st.name == name && st.queue == [] && !st.closed
  }

  function NewReadStream(name: string): Stream {
    Stream(name, Read, [], false)
  }

  function NewWriteStream(writeKey: string, name: string): Stream {
    Stream(name, Write(writeKey), [], false)
  }

  /** `after` is `before` with `body` at the back of its queue and nothing else changed. */
  predicate Appended(before: Stream, after: Stream, body: Chunk) {
    && after.name == before.name
    && after.direction == before.direction
    && after.closed == before.closed
    && after.queue == before.queue + [body]
  }

  /** Hands `body` to the stream's channel. */
  function Push(st: Stream, body: Chunk): Stream {
    st.(queue := st.queue + [body])
  }

  /** The stream after its own Close succeeded. */
  function MarkClosed(st: Stream): Stream {
    st.(closed := true)
  }
}
