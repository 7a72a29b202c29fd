/** The metadata bridge: presents the remaining bytes of a stream to the tag
    library as a named file that it can read, write and "close", without any
    file system access. */
module Bridge {
  import opened Streams

  /** The two requests the tag library makes that matter to the bridge's
      state: asking for the write handle, and closing a handle. */
  datatype Access = WriteAccess | CloseAccess

  /** The close flag after a sequence of requests, starting from `closed`.
      A close sets the flag; a write request clears it, whether it found it
      set or not. So the flag is set exactly when the last request was a
      close (or, with no requests, when it started set). */
  function ClosedAfter(closed: bool, trace: seq<Access>): (r: bool)
    ensures r == if trace == [] then closed else trace[|trace| - 1] == CloseAccess
    decreases |trace|
  {
    if trace == [] then closed else ClosedAfter(trace[0] == CloseAccess, trace[1..])
  }

  /** For each request of `trace`, run from the flag `closed`: whether it was
      a write request answered with null. */
  function Nulls(closed: bool, trace: seq<Access>): (r: seq<bool>)
    ensures |r| == |trace|
    decreases |trace|
  {
    if trace == [] then []
    else [trace[0] == WriteAccess && closed] + Nulls(trace[0] == CloseAccess, trace[1..])
  }

  /** Appending one request adds its answer and keeps the earlier ones. */
  lemma {:induction false} NullsSnoc(closed: bool, trace: seq<Access>, access: Access)
    ensures Nulls(closed, trace + [access]) ==
              Nulls(closed, trace) + [access == WriteAccess && ClosedAfter(closed, trace)]
    decreases |trace|
  {
    if trace == [] {
    } else {
      assert (trace + [access])[1..] == trace[1..] + [access];
      NullsSnoc(trace[0] == CloseAccess, trace[1..], access);
    }
  }

  /** The one-shot close: starting open, a write request is answered with
      null if and only if the request just before it was a close. */
  lemma {:induction false} NullIffJustClosed(trace: seq<Access>, i: nat)
    requires i < |trace| && trace[i] == WriteAccess
    ensures Nulls(false, trace)[i] <==> i > 0 && trace[i - 1] == CloseAccess
  {
    var prefix := trace[..i];
    assert trace[..i + 1] == prefix + [WriteAccess];
    NullsSnoc(false, prefix, WriteAccess);
    NullsPrefix(false, trace, i + 1);
  }

  /** The answers to a prefix of the requests are a prefix of the answers. */
  lemma {:induction false} NullsPrefix(closed: bool, trace: seq<Access>, n: nat)
    requires n <= |trace|
    ensures Nulls(closed, trace[..n]) == Nulls(closed, trace)[..n]
    decreases n
  {
    if n > 0 {
      assert trace[..n][1..] == trace[1..][..n - 1];
      NullsPrefix(trace[0] == CloseAccess, trace[1..], n - 1);
    }
  }

  /** Two write requests in a row are never both answered with null. */
  lemma NoNullTwiceInARow(trace: seq<Access>, i: nat)
    requires i + 1 < |trace| && trace[i] == WriteAccess && trace[i + 1] == WriteAccess
    ensures !(Nulls(false, trace)[i] && Nulls(false, trace)[i + 1])
  {
    NullIffJustClosed(trace, i + 1);
  }

  class StreamFileAbstraction {
    /** The logical file name, from which the tag library infers the format. */
    const Name: string
    const memoryStream: Stream
    var isClosed: bool
    /** The write and close requests made so far. */
    ghost var trace: seq<Access>

    ghost predicate Valid()
      reads this
    {
      isClosed == ClosedAfter(false, trace)
    }

    /** Copies the remaining bytes of `stream` into a private buffer and puts
        the source back where it was; the buffer is rewound and the bridge
        is open. */
    constructor (name: string, stream: Stream)
      modifies stream
      ensures Valid() && trace == []
      ensures Name == name
      ensures fresh(memoryStream)
      ensures memoryStream.data == old(stream.Remaining()) && memoryStream.position == 0
      ensures stream.data == old(stream.data) && stream.position == old(stream.position)
      ensures !isClosed
    {
      Name := name;
      var pos := stream.position;
      var buffer := new Stream.Empty();
      stream.CopyTo(buffer);
      stream.Seek(pos);
      buffer.Seek(0);
      memoryStream := buffer;
      isClosed := false;
      trace := [];
    }

    /** The read handle: always the buffer, whatever the close flag. */
    method ReadStream() returns (s: Stream)
      ensures s == memoryStream
    {
      s := memoryStream;
    }

    /** The write handle: the buffer when open; null when closed, which also
        reopens the bridge. */
    method WriteStream() returns (s: Stream?)
      requires Valid()
      modifies this`isClosed, this`trace
      ensures Valid() && trace == old(trace) + [WriteAccess]
      ensures s == (if old(isClosed) then null else memoryStream)
      ensures !isClosed
      ensures (s == null) == Nulls(false, trace)[|trace| - 1]
    {
      NullsSnoc(false, trace, WriteAccess);
      trace := trace + [WriteAccess];
      if !isClosed {
        s := memoryStream;
        return;
      }
      isClosed := false;
      s := null;
    }

    /** Rewinds the given stream, which need not be the buffer, and marks
        the bridge closed. No stream's contents change. */
    method CloseStream(stream: Stream)
      requires Valid()
      modifies this`isClosed, this`trace, stream`position
      ensures Valid() && trace == old(trace) + [CloseAccess]
      ensures stream.position == 0 && isClosed
    {
      trace := trace + [CloseAccess];
      stream.Seek(0);
      isClosed := true;
    }
  }

  /** A close followed by two write requests: the first is answered with
      null, the second with the buffer again, and the buffer is rewound. */
  method CloseThenReopen(bridge: StreamFileAbstraction) returns (first: Stream?, second: Stream?)
    requires bridge.Valid()
    modifies bridge`isClosed, bridge`trace, bridge.memoryStream`position
    ensures bridge.Valid() && !bridge.isClosed
    ensures first == null && second == bridge.memoryStream
    ensures bridge.memoryStream.position == 0 && bridge.memoryStream.data == old(bridge.memoryStream.data)
  {
    var handle := bridge.ReadStream();
    bridge.CloseStream(handle);
    first := bridge.WriteStream();
    second := bridge.WriteStream();
  }
}
