/** Seekable byte streams, as far as the metadata bridge and the program use
    them: contents and a current position, which may lie past the end. */
module Streams {

  newtype byte = x: int | 0 <= x < 256

  function Max(i: int, j: int): int
  {
    if i >= j then i else j
  }

  /** The contents after writing `bytes` at position `pos` of `data`: a gap
      between the old end and `pos` reads as zeros, and the bytes outside
      the written range are kept. */
  function Overwrite(data: seq<byte>, pos: nat, bytes: seq<byte>): (r: seq<byte>)
    ensures |r| == Max(|data|, pos + |bytes|)
    ensures r[pos..pos + |bytes|] == bytes
    ensures forall i :: 0 <= i < |r| && (i < pos || pos + |bytes| <= i) ==>
              r[i] == (if i < |data| then data[i] else 0)
  {
    var base := if pos <= |data| then data else data + seq(pos - |data|, _ => 0 as byte);
    base[..pos] + bytes + (if pos + |bytes| <= |base| then base[pos + |bytes|..] else [])
  }

  class Stream {
    var data: seq<byte>
    var position: nat

    /** A stream over existing bytes, positioned at their start. */
    constructor (data: seq<byte>)
      ensures this.data == data && position == 0
    {
      this.data := data;
      position := 0;
    }

    /** An empty, growable in-memory stream. */
    constructor Empty()
      ensures data == [] && position == 0
    {
      data := [];
      position := 0;
    }

    /** The bytes a read from the current position to the end returns. */
    function Remaining(): (r: seq<byte>)
      reads this
      ensures position <= |data| ==> data[..position] + r == data
      ensures position >= |data| ==> r == []
    {
      if position <= |data| then data[position..] else []
    }

    method Write(bytes: seq<byte>)
      modifies this
      ensures data == Overwrite(old(data), old(position), bytes)
      ensures position == old(position) + |bytes|
    {
      data := Overwrite(data, position, bytes);
      position := position + |bytes|;
    }

    /** Reads this stream to its end and writes what it read into dest. */
    method CopyTo(dest: Stream)
      requires dest != this
      modifies this`position, dest
      ensures dest.data == Overwrite(old(dest.data), old(dest.position), old(Remaining()))
      ensures dest.position == old(dest.position) + |old(Remaining())|
      ensures position == Max(old(position), |data|)
    {
      var bytes := Remaining();
      position := Max(position, |data|);
      dest.Write(bytes);
    }

    /** Seek relative to the beginning of the stream. */
    method Seek(offset: nat)
      modifies this`position
      ensures position == offset
    {
      position := offset;
    }
  }
}
