/**
 * Byte channels: an input stream whose reads may return fewer bytes
 * than asked for (as a network stream does), and an output stream that
 * records everything written to it.
 */
module Streams {
  import opened Wire

  /** The concatenation of a sequence of byte strings. */
  function Flatten(parts: seq<bytes>): (r: bytes)
  {
    if |parts| == 0 then [] else parts[0] + Flatten(parts[1..])
  }

  lemma {:induction false} FlattenAppend(a: seq<bytes>, b: seq<bytes>)
    ensures Flatten(a + b) == Flatten(a) + Flatten(b)
  {
    if |a| == 0 {
      assert a + b == b;
    } else {
      assert (a + b)[1..] == a[1..] + b;
      FlattenAppend(a[1..], b);
    }
  }

  /**
   * A readable stream over the bytes a peer sends; EOF once they are all
   * consumed. A single read delivers at most `segment` bytes: the model
   * leaves the peer's segmentation open, so what is proved about a reader
   * holds however the bytes arrive.
   */
  class InputStream {
    const data: bytes
    const segment: nat
    var pos: nat

    ghost predicate Valid()
      reads this
    {
      pos <= |data| && segment > 0
    }

    /** What the stream still has to deliver. */
    function Remaining(): bytes
      reads this
      requires Valid()
    {
      data[pos..]
    }

    constructor (data: bytes, segment: nat)
      requires segment > 0
      ensures Valid() && this.data == data && this.segment == segment && pos == 0
    {
      this.data := data;
      this.segment := segment;
      pos := 0;
    }

    /**
     * Stream.Read(buffer, offset, count): delivers between one and count
     * bytes into buffer[offset..] while data remain, however many the
     * peer's segmentation yields; zero means the end of the stream.
     */
    method ReadInto(buffer: array<byte>, offset: nat, count: nat) returns (n: nat)
      requires Valid() && offset + count <= buffer.Length
      modifies this, buffer
      ensures Valid()
      ensures n <= count && pos == old(pos) + n
      ensures n == 0 <==> count == 0 || old(pos) == |data|
      ensures buffer[offset..offset + n] == data[old(pos)..pos]
      ensures buffer[..offset] == old(buffer[..offset])
      ensures buffer[offset + n..] == old(buffer[offset + n..])
    {
      n := Min(Min(count, |data| - pos), segment);
      forall i | offset <= i < offset + n {
        buffer[i] := data[pos + i - offset];
      }
      pos := pos + n;
    }

    /** Reading one byte on its own, as a peek does. */
    method ReadByte() returns (r: Option<byte>)
      requires Valid()
      modifies this
      ensures Valid()
      ensures old(pos) < |data| ==> r == Some(data[old(pos)]) && pos == old(pos) + 1
      ensures old(pos) == |data| ==> r == None && pos == old(pos)
    {
      if pos < |data| {
        r := Some(data[pos]);
        pos := pos + 1;
      } else {
        r := None;
      }
    }
  }

  /**
   * The read-until-full loop every packet reader uses: reads into
   * buffer[from..to] until it is full or the stream ends, and says how
   * far it got.
   */
  method Fill(stream: InputStream, buffer: array<byte>, from: nat, to: nat) returns (filled: nat)
    requires stream.Valid() && from <= to <= buffer.Length
    modifies stream, buffer
    ensures stream.Valid()
    ensures filled == from + Min(to - from, |old(stream.Remaining())|)
    ensures stream.pos == old(stream.pos) + (filled - from)
    ensures buffer[..from] == old(buffer[..from])
    ensures buffer[from..filled] == old(stream.Remaining())[..filled - from]
  {
    ghost var s := stream.Remaining();
    ghost var start := stream.pos;
    filled := from;
    while filled < to
      invariant stream.Valid() && from <= filled <= to
      invariant stream.pos == start + (filled - from)
      invariant buffer[..from] == old(buffer[..from])
      invariant buffer[from..filled] == s[..filled - from]
    {
      var n := stream.ReadInto(buffer, filled, to - filled);
      if n == 0 {
        return;
      }
      assert buffer[from..filled + n] == buffer[from..filled] + buffer[filled..filled + n];
      assert s[..filled + n - from] == s[..filled - from] + s[filled - from..filled + n - from];
      filled := filled + n;
    }
  }

  /** A writable stream: everything written, in order. */
  class OutputStream {
    var written: bytes

    constructor ()
      ensures written == []
    {
      written := [];
    }

    method Write(b: bytes)
      modifies this
      ensures written == old(written) + b
    {
      written := written + b;
    }
  }
}
