/**
 * TdsSslHandshakeAdapter: the stream the proxy's TLS server reads and
 * writes while it runs the handshake with the client. During the
 * handshake the client sends its TLS records wrapped in PRELOGIN packets
 * and expects the proxy's records back wrapped in TABULAR_RESULT
 * packets; the adapter unwraps and wraps them, keeping the part of an
 * unwrapped payload a read had no room for. Outside the handshake it
 * passes bytes straight through.
 *
 * The adapter consults its connection's state, packet length and SPID;
 * here they are arguments of the calls.
 */
module HandshakeAdapters {
  import opened Wire
  import opened Streams
  import TdsPacket
  import PreLoginMessages
  import Messages
  import ConnectionRules
  import Sessions
  import Connections

  /**
   * TDSPacket.ReadAsync(PreLogin, stream) and FromPackets after the type
   * byte was peeked: the payload of the PreLogin message that follows,
   * or the failure of reading or decoding it.
   */
  method ReadWrapper(stream: InputStream) returns (r: Result<bytes>)
    requires stream.Valid()
    modifies stream
    ensures stream.Valid()
    ensures r == ConnectionRules.Unwrapped(old(stream.Remaining()))
  {
    ghost var s := stream.Remaining();
    var packets := TdsPacket.ReadMessage(stream, TdsPacket.PreLogin);
    if packets.Err? {
      return Err(packets.error);
    }
    TdsPacket.ParseMessageShape(s, TdsPacket.PreLogin, false);
    assert packets.value[0].packetType == TdsPacket.PreLogin;
    var message := Messages.FromPackets(Some(packets.value), None, 0);
    if message.Err? {
      return Err(message.error);
    }
    match message.value
    case Some(PreLoginMsg(wrapper)) =>
      r := Ok(wrapper.payload.value);
    case _ =>
      assert false;
  }

  class HandshakeAdapter {
    /** The connection's raw outside stream, both ways. */
    const outsideIn: InputStream
    const outsideOut: OutputStream
    /** _wrapperBytes and _wrapperOffset: an unwrapped payload not yet all returned. */
    var wrapperBytes: Option<bytes>
    var wrapperOffset: nat

    /** A stash always has bytes left to return; no stash has offset 0. */
    ghost predicate Valid()
      reads this, outsideIn
    {
      && outsideIn.Valid()
      && (wrapperBytes.Some? ==> wrapperOffset < |wrapperBytes.value|)
      && (wrapperBytes.None? ==> wrapperOffset == 0)
    }

    /** The stashed bytes the next reads will return before anything else is read. */
    function Pending(): (r: bytes)
      reads this
      ensures wrapperBytes.None? ==> r == []
    {
      if wrapperBytes.Some? && wrapperOffset <= |wrapperBytes.value| then wrapperBytes.value[wrapperOffset..] else []
    }

    constructor (outsideIn: InputStream, outsideOut: OutputStream)
      requires outsideIn.Valid()
      ensures Valid() && wrapperBytes == None && Pending() == []
      ensures this.outsideIn == outsideIn && this.outsideOut == outsideOut
    {
      this.outsideIn := outsideIn;
      this.outsideOut := outsideOut;
      wrapperBytes := None;
      wrapperOffset := 0;
    }

    /**
     * ReadAsync(buffer, offset, count) with the connection in the given
     * state. During the handshake: stashed bytes first, as many as fit;
     * otherwise one byte is peeked, the end of the stream returns 0, a
     * PRELOGIN or TABULAR_RESULT type byte is followed by a wrapped TLS
     * payload, which is returned as far as count allows and stashed
     * beyond that, and any other byte is returned with whatever a direct
     * read yields after it. Outside the handshake: a leftover stash is
     * dropped and the read goes straight to the stream.
     */
    method Read(buffer: array<byte>, offset: nat, count: nat, state: Connections.State) returns (r: Result<nat>)
      requires Valid() && offset + count <= buffer.Length
      modifies this, outsideIn, buffer
      ensures Valid()
      ensures r.Ok? ==> r.value <= count && buffer[offset + r.value..] == old(buffer[offset + r.value..])
      ensures buffer[..offset] == old(buffer[..offset])
      ensures state != Connections.SslHandshake ==> PassedThrough(buffer, offset, count, r)
      ensures state == Connections.SslHandshake && old(wrapperBytes).Some? ==> FromStash(buffer, offset, count, r)
      ensures state == Connections.SslHandshake && old(wrapperBytes).None? ==> Peeked(buffer, offset, count, r)
    {
      if state == Connections.SslHandshake {
        if wrapperBytes.Some? {
          r := ReadStash(buffer, offset, count);
        } else {
          r := ReadFresh(buffer, offset, count);
        }
      } else {
        wrapperBytes, wrapperOffset := None, 0;
        var n := outsideIn.ReadInto(buffer, offset, count);
        r := Ok(n);
      }
    }

    /** A read outside the handshake: the stash dropped and the stream read directly. */
    twostate predicate PassedThrough(buffer: array<byte>, offset: nat, count: nat, new r: Result<nat>)
      requires old(Valid()) && Valid() && offset + count <= buffer.Length
      reads this, outsideIn, buffer
    {
      && r.Ok? && Pending() == []
      && r.value <= count
      && outsideIn.pos == old(outsideIn.pos) + r.value
      && buffer[offset..offset + r.value] == old(outsideIn.Remaining())[..r.value]
      && (r.value == 0 <==> count == 0 || old(outsideIn.Remaining()) == [])
    }

    /**
     * A handshake read served from the stash: as many stashed bytes as
     * count allows, in order, the rest kept for the next read, and the
     * stream left alone.
     */
    twostate predicate FromStash(buffer: array<byte>, offset: nat, count: nat, new r: Result<nat>)
      requires offset + count <= buffer.Length
      reads this, outsideIn, buffer
    {
      && r == Ok(ConnectionRules.Delivered(old(Pending()), count))
      && old(Pending()) == buffer[offset..offset + r.value] + Pending()
      && outsideIn.pos == old(outsideIn.pos)
    }

    /**
     * A handshake read with nothing stashed, by what the peeked byte was:
     * the end of the stream gives 0; a PRELOGIN or TABULAR_RESULT type
     * gives the unwrapped payload's first bytes, the rest stashed, or the
     * failure to unwrap it; any other byte is returned with the bytes a
     * direct read gives after it, and a read of no bytes fails.
     */
    twostate predicate Peeked(buffer: array<byte>, offset: nat, count: nat, new r: Result<nat>)
      requires old(Valid()) && offset + count <= buffer.Length
      reads this, outsideIn, buffer
    {
      var s := old(outsideIn.Remaining());
      if s == [] then r == Ok(0) && Pending() == [] && outsideIn.pos == old(outsideIn.pos)
      else if s[0] == TdsPacket.PreLogin || s[0] == TdsPacket.TabularResult then
        var u := ConnectionRules.Unwrapped(s[1..]);
        && (u.Err? ==> r == Err(u.error) && Pending() == [])
        && (u.Ok? ==> r == Ok(ConnectionRules.Delivered(u.value, count))
                      && u.value == buffer[offset..offset + r.value] + Pending())
      else
        && Pending() == []
        && (count == 0 ==> r.Err?)
        && (count > 0 ==> r.Ok? && 0 < r.value <= count && r.value <= |s| && buffer[offset] == s[0]
                          && outsideIn.pos == old(outsideIn.pos) + r.value
                          && buffer[offset..offset + r.value] == s[..r.value])
    }

    /** The stashed half of a handshake read. */
    method ReadStash(buffer: array<byte>, offset: nat, count: nat) returns (r: Result<nat>)
      requires Valid() && wrapperBytes.Some? && offset + count <= buffer.Length
      modifies this, buffer
      ensures Valid() && FromStash(buffer, offset, count, r)
      ensures buffer[..offset] == old(buffer[..offset])
      ensures buffer[offset + r.value..] == old(buffer[offset + r.value..])
    {
      var savedBytes := wrapperBytes.value;
      var savedOffset := wrapperOffset;
      var returnCount: nat;
      if count + savedOffset < |savedBytes| {
        wrapperOffset := wrapperOffset + count;
        returnCount := count;
      } else {
        wrapperBytes, wrapperOffset := None, 0;
        returnCount := |savedBytes| - savedOffset;
      }
      CopyInto(savedBytes[savedOffset..savedOffset + returnCount], buffer, offset);
      assert savedBytes[savedOffset..] == savedBytes[savedOffset..savedOffset + returnCount] + savedBytes[savedOffset + returnCount..];
      r := Ok(returnCount);
    }

    /** A handshake read with nothing stashed: the peek and what follows it. */
    method ReadFresh(buffer: array<byte>, offset: nat, count: nat) returns (r: Result<nat>)
      requires Valid() && wrapperBytes.None? && offset + count <= buffer.Length
      modifies this, outsideIn, buffer
      ensures Valid() && Peeked(buffer, offset, count, r)
      ensures r.Ok? ==> r.value <= count && buffer[offset + r.value..] == old(buffer[offset + r.value..])
      ensures buffer[..offset] == old(buffer[..offset])
    {
      ghost var s := outsideIn.Remaining();
      var peek := outsideIn.ReadByte();
      if peek.None? {
        return Ok(0);
      }
      assert outsideIn.Remaining() == s[1..];
      if peek.value == TdsPacket.PreLogin || peek.value == TdsPacket.TabularResult {
        r := ReadWrapped(buffer, offset, count);
      } else {
        r := PassPeeked(s, peek.value, buffer, offset, count);
      }
    }

    /** A wrapper read after its type byte was peeked: the payload unwrapped, returned and stashed. */
    method ReadWrapped(buffer: array<byte>, offset: nat, count: nat) returns (r: Result<nat>)
      requires Valid() && wrapperBytes.None? && offset + count <= buffer.Length
      modifies this, outsideIn, buffer
      ensures Valid()
      ensures r.Ok? ==> r.value <= count && buffer[offset + r.value..] == old(buffer[offset + r.value..])
      ensures buffer[..offset] == old(buffer[..offset])
      ensures var u := ConnectionRules.Unwrapped(old(outsideIn.Remaining()));
        && (u.Err? ==> r == Err(u.error) && Pending() == [])
        && (u.Ok? ==> r == Ok(ConnectionRules.Delivered(u.value, count))
                      && u.value == buffer[offset..offset + r.value] + Pending())
    {
      var payload := ReadWrapper(outsideIn);
      if payload.Err? {
        return Err(payload.error);
      }
      r := Unwrap(payload.value, buffer, offset, count);
    }

    /**
     * The rest of a read whose payload was just unwrapped: as much as
     * count allows is returned, and a longer payload is stashed from
     * there. The copy is of the returned bytes (see UnwrapCopyAsWritten
     * for the copy as the source writes it).
     */
    method Unwrap(payload: bytes, buffer: array<byte>, offset: nat, count: nat) returns (r: Result<nat>)
      requires Valid() && wrapperBytes.None? && offset + count <= buffer.Length
      modifies this, buffer
      ensures Valid() && outsideIn.pos == old(outsideIn.pos)
      ensures r == Ok(ConnectionRules.Delivered(payload, count))
      ensures payload == buffer[offset..offset + r.value] + Pending()
      ensures buffer[..offset] == old(buffer[..offset])
      ensures buffer[offset + r.value..] == old(buffer[offset + r.value..])
    {
      var unwrappedCount: nat;
      if |payload| > count {
        wrapperBytes, wrapperOffset := Some(payload), count;
        unwrappedCount := count;
      } else {
        unwrappedCount := |payload|;
      }
      CopyInto(payload[..unwrappedCount], buffer, offset);
      r := Ok(unwrappedCount);
    }

    /**
     * A peeked byte that starts no wrapper: it is returned first, then a
     * direct read of at most count - 1 more bytes; a read of no bytes at
     * all fails, having no room for the peeked one. The bytes returned are
     * the first ones of what the stream held before the peek, seen.
     */
    method PassPeeked(ghost seen: bytes, b: byte, buffer: array<byte>, offset: nat, count: nat) returns (r: Result<nat>)
      requires Valid() && wrapperBytes.None? && offset + count <= buffer.Length
      requires |seen| > 0 && seen[0] == b && outsideIn.Remaining() == seen[1..]
      modifies outsideIn, buffer
      ensures Valid() && Pending() == []
      ensures count == 0 ==> r.Err? && outsideIn.pos == old(outsideIn.pos)
      ensures count > 0 ==>
        && r.Ok? && 0 < r.value <= count && buffer[offset] == b
        && outsideIn.pos + 1 == old(outsideIn.pos) + r.value
        && buffer[offset..offset + r.value] == seen[..r.value]
      ensures buffer[..offset] == old(buffer[..offset])
      ensures r.Ok? ==> buffer[offset + r.value..] == old(buffer[offset + r.value..])
    {
      if offset == buffer.Length {
        return Err(IndexOutOfRange);
      }
      buffer[offset] := b;
      if count == 0 {
        return Err(Argument);
      }
      if count == 1 {
        assert buffer[offset..offset + 1] == [b];
        return Ok(1);
      }
      ghost var at, before := outsideIn.pos, buffer[..offset + 1];
      var n := outsideIn.ReadInto(buffer, offset + 1, count - 1);
      assert buffer[..offset + 1] == before;
      assert buffer[offset] == before[offset] == b;
      assert buffer[offset + 1..offset + 1 + n] == outsideIn.data[at..at + n] == seen[1..][..n];
      assert buffer[offset..offset + n + 1] == [b] + buffer[offset + 1..offset + 1 + n];
      assert seen[..n + 1] == [b] + seen[1..][..n];
      r := Ok(n + 1);
    }

    /**
     * WriteAsync(buffer, offset, count) with the connection in the given
     * state: during the handshake, a copy of the bytes as the SSL payload
     * of a PreLogin message sent as TABULAR_RESULT packets; otherwise the
     * bytes themselves.
     */
    method Write(buffer: array<byte>, offset: nat, count: nat, state: Connections.State, packetLength: u16, spid: u16)
      returns (r: Result<()>)
      requires offset + count <= buffer.Length && packetLength > TdsPacket.HeaderLength
      modifies outsideOut
      ensures r == Ok(())
      ensures var data := buffer[offset..offset + count];
        outsideOut.written == old(outsideOut.written)
          + if state == Connections.SslHandshake then Sessions.Sent(Ok(data), packetLength, spid, TdsPacket.TabularResult)
            else data
    {
      var sslBuffer := buffer[offset..offset + count];
      if state == Connections.SslHandshake {
        var msg := new PreLoginMessages.PreLoginMessage();
        msg.SetSslPayload(Some(sslBuffer));
        r := Messages.WriteAsPackets(outsideOut, packetLength, spid, Messages.PreLoginMsg(msg),
                                     TdsPacket.StatusNormal, Some(TdsPacket.TabularResult), 0);
      } else {
        outsideOut.Write(sslBuffer);
        r := Ok(());
      }
    }
  }

  /** Buffer.BlockCopy of the bytes src into buffer at offset. */
  method CopyInto(src: bytes, buffer: array<byte>, offset: nat)
    requires offset + |src| <= buffer.Length
    modifies buffer
    ensures buffer[offset..offset + |src|] == src
    ensures buffer[..offset] == old(buffer[..offset])
    ensures buffer[offset + |src|..] == old(buffer[offset + |src|..])
  {
    forall i | offset <= i < offset + |src| {
      buffer[i] := src[i - offset];
    }
  }
}
