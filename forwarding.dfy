/**
 * The forwarding loops of a connected TDSConnection: each reads one type
 * byte, then a whole TDS packet or SMP packet after it, and writes that
 * packet to the other side; the peer's end of stream ends the loop, and
 * a byte that starts neither kind of packet kills the connection.
 */
module Forwarding {
  import opened Wire
  import opened Streams
  import TdsPacket
  import Smp

  /** Why a forwarding loop stopped. */
  datatype Stop =
    | PeerClosed                        // the source reached its end
    | UnexpectedType(packetType: byte)  // neither a TDS nor an SMP type
    | Failed(error: Error)              // a packet reader threw

  /** A type byte the loop knows how to read a packet after. */
  predicate Known(b: byte, smpTypes: set<byte>)
  {
    TdsPacket.IsTdsPacketType(b) || Smp.IsSmpPacketType(b, smpTypes)
  }

  /**
   * The packet that starts s, whose first byte is a known type: a TDS
   * packet read with that type (TDS types are tried first) and written as
   * its PacketData, or an SMP packet read with that type and written as
   * its Data. What is written is exactly what was read.
   */
  function NextPacket(s: bytes, smpTypes: set<byte>): (r: Result<bytes>)
    requires |s| > 0 && Known(s[0], smpTypes)
    ensures r.Ok? ==> 0 < |r.value| <= |s| && r.value == s[..|r.value|]
  {
    if TdsPacket.IsTdsPacketType(s[0]) then
      var p :- TdsPacket.ParseSinglePacket(s[1..], s[0], false);
      TdsPacketIsRead(s);
      Ok(TdsPacket.Serialize(p))
    else
      var p :- Smp.ParseSmp(s[1..], false, Some(s[0]), smpTypes);
      assert p.Some?;
      SmpPacketIsRead(s, smpTypes);
      Ok(p.value.data)
  }

  /** A TDS packet read after its peeked type byte serializes to the bytes it was read from. */
  lemma TdsPacketIsRead(s: bytes)
    requires |s| > 0 && TdsPacket.ParseSinglePacket(s[1..], s[0], false).Ok?
    ensures var p := TdsPacket.ParseSinglePacket(s[1..], s[0], false).value;
      |TdsPacket.Serialize(p)| <= |s| && TdsPacket.Serialize(p) == s[..|TdsPacket.Serialize(p)|]
  {
    var t := s[1..];
    var p := TdsPacket.ParseSinglePacket(t, s[0], false).value;
    var header := [s[0]] + t[..7];
    assert TdsPacket.ParseHeader(t, s[0], false) == Ok(header);
    assert TdsPacket.ParseBody(header, t[7..], s[0]) == Ok(p);
    BEOfBEValue(header[2..4]);
    BEOfBEValue(header[4..6]);
    assert header == [header[0], header[1]] + header[2..4] + header[4..6] + [header[6], header[7]];
    assert TdsPacket.Header(p.packetType, p.status, p.length, p.spid, p.packetId, p.window) == header;
    assert s[..8 + |p.payload|] == header + p.payload;
  }

  /** An SMP packet read after its peeked type byte holds the bytes it was read from. */
  lemma SmpPacketIsRead(s: bytes, smpTypes: set<byte>)
    requires |s| > 0
    requires var r := Smp.ParseSmp(s[1..], false, Some(s[0]), smpTypes); r.Ok? && r.value.Some?
    ensures var p := Smp.ParseSmp(s[1..], false, Some(s[0]), smpTypes).value.value;
      |p.data| <= |s| && p.data == s[..|p.data|]
  {
    var t := s[1..];
    var header := Smp.ParseSmpHeader(t, false, Some(s[0]), smpTypes).value.value;
    var p := Smp.ParseSmpBody(header, t[Smp.HeaderConsumed(false)..], smpTypes).value;
    assert header == [s[0]] + t[..15];
    assert p.data == header + t[15..][..|p.data| - 16];
    assert p.data == s[..|p.data|];
  }

  /**
   * ForwardOutsideToInside and ForwardInsideToOutside on a source that
   * will deliver s: the bytes written to the other side, and why the loop
   * stopped. Every packet is forwarded as it arrived.
   */
  function Forward(s: bytes, smpTypes: set<byte>): (r: (bytes, Stop))
    ensures r.0 <= s
    decreases |s|
  {
    if |s| == 0 then ([], PeerClosed)
    else if !Known(s[0], smpTypes) then ([], UnexpectedType(s[0]))
    else match NextPacket(s, smpTypes)
      case Err(e) => ([], Failed(e))
      case Ok(w) =>
        var rest := Forward(s[|w|..], smpTypes);
        assert s == w + s[|w|..];
        (w + rest.0, rest.1)
  }

  /** A packet as it travels: TDS or SMP. */
  datatype Frame = TdsFrame(packet: TdsPacket.Packet) | SmpFrame(smp: Smp.SmpPacket)

  function FrameBytes(f: Frame): bytes
  {
    match f
    case TdsFrame(p) => TdsPacket.Serialize(p)
    case SmpFrame(m) => m.data
  }

  /** A packet the peer may send: a well-formed TDS packet, or a valid SMP packet whose type is not a TDS type. */
  predicate Sendable(f: Frame, smpTypes: set<byte>)
  {
    match f
    case TdsFrame(p) => TdsPacket.WellFormed(p) && TdsPacket.IsTdsPacketType(p.packetType)
    case SmpFrame(m) => Smp.Valid(m, smpTypes) && |m.data| < 0x8000_0000 && !TdsPacket.IsTdsPacketType(m.data[0])
  }

  function Frames(fs: seq<Frame>): bytes
  {
    if |fs| == 0 then [] else FrameBytes(fs[0]) + Frames(fs[1..])
  }

  /** One trip of the loop, in terms of what the whole loop forwards. */
  lemma ForwardStep(s: bytes, smpTypes: set<byte>, w: bytes)
    requires |s| > 0 && Known(s[0], smpTypes) && NextPacket(s, smpTypes) == Ok(w)
    ensures Forward(s, smpTypes) == (w + Forward(s[|w|..], smpTypes).0, Forward(s[|w|..], smpTypes).1)
  {
  }

  /** A well-formed TDS packet at the front of a stream is read back as itself. */
  lemma NextOfTdsPacket(p: TdsPacket.Packet, smpTypes: set<byte>, rest: bytes)
    requires TdsPacket.WellFormed(p) && TdsPacket.IsTdsPacketType(p.packetType)
    ensures var s := TdsPacket.Serialize(p) + rest;
      |s| > 0 && Known(s[0], smpTypes) && NextPacket(s, smpTypes) == Ok(TdsPacket.Serialize(p))
  {
    var s := TdsPacket.Serialize(p) + rest;
    assert TdsPacket.Serialize(p)[0] == p.packetType;
    assert s[1..] == TdsPacket.OnStream(p, false) + rest;
    TdsPacket.ParseSerialized(p, rest, false);
  }

  /** A valid SMP packet at the front of a stream is read back as itself. */
  lemma NextOfSmpPacket(m: Smp.SmpPacket, smpTypes: set<byte>, rest: bytes)
    requires Smp.Valid(m, smpTypes) && |m.data| < 0x8000_0000 && !TdsPacket.IsTdsPacketType(m.data[0])
    ensures var s := m.data + rest; |s| > 0 && Known(s[0], smpTypes) && NextPacket(s, smpTypes) == Ok(m.data)
  {
    var s := m.data + rest;
    assert s[1..] == m.data[1..] + rest;
    Smp.ReadWrittenTypeSupplied(m, smpTypes, rest);
  }

  /** A packet the peer sends at the front of a stream is forwarded as itself, and forwarding goes on after it. */
  lemma ForwardFrame(f: Frame, smpTypes: set<byte>, tail: bytes)
    requires Sendable(f, smpTypes)
    ensures Forward(FrameBytes(f) + tail, smpTypes) == (FrameBytes(f) + Forward(tail, smpTypes).0, Forward(tail, smpTypes).1)
  {
    match f
    case TdsFrame(p) =>
      NextOfTdsPacket(p, smpTypes, tail);
      ForwardAfter(TdsPacket.Serialize(p), tail, smpTypes);
    case SmpFrame(m) =>
      NextOfSmpPacket(m, smpTypes, tail);
      ForwardAfter(m.data, tail, smpTypes);
  }

  /**
   * Packets the peer sends are forwarded byte for byte, and forwarding
   * carries on with whatever follows them; so a peer that sends only
   * such packets and then closes has all of them forwarded.
   */
  lemma {:induction false} ForwardsFrames(fs: seq<Frame>, smpTypes: set<byte>, rest: bytes)
    requires forall i :: 0 <= i < |fs| ==> Sendable(fs[i], smpTypes)
    ensures Forward(Frames(fs) + rest, smpTypes) == (Frames(fs) + Forward(rest, smpTypes).0, Forward(rest, smpTypes).1)
    decreases |fs|
  {
    if |fs| == 0 {
      assert Frames(fs) + rest == rest;
      assert Frames(fs) + Forward(rest, smpTypes).0 == Forward(rest, smpTypes).0;
    } else {
      var tail := Frames(fs[1..]) + rest;
      assert Frames(fs) + rest == FrameBytes(fs[0]) + tail;
      ForwardFrame(fs[0], smpTypes, tail);
      ForwardsFrames(fs[1..], smpTypes, rest);
      assert Frames(fs) + Forward(rest, smpTypes).0 == FrameBytes(fs[0]) + (Frames(fs[1..]) + Forward(rest, smpTypes).0);
    }
  }

  /** ForwardStep for a stream that starts with the packet w. */
  lemma ForwardAfter(w: bytes, tail: bytes, smpTypes: set<byte>)
    requires |w + tail| > 0 && Known((w + tail)[0], smpTypes) && NextPacket(w + tail, smpTypes) == Ok(w)
    ensures Forward(w + tail, smpTypes) == (w + Forward(tail, smpTypes).0, Forward(tail, smpTypes).1)
  {
    ForwardStep(w + tail, smpTypes, w);
    assert (w + tail)[|w|..] == tail;
  }

  /** A peer that sends packets and closes has exactly those bytes forwarded. */
  lemma ForwardsAll(fs: seq<Frame>, smpTypes: set<byte>)
    requires forall i :: 0 <= i < |fs| ==> Sendable(fs[i], smpTypes)
    ensures Forward(Frames(fs), smpTypes) == (Frames(fs), PeerClosed)
  {
    ForwardsFrames(fs, smpTypes, []);
    assert Frames(fs) + [] == Frames(fs);
  }

  /**
   * The body of the loop once the type byte b = s[0] has been peeked and
   * is known: the packet read after it and written to the sink, as
   * NextPacket has it.
   */
  method ForwardPacket(source: InputStream, sink: OutputStream, smpTypes: set<byte>, ghost s: bytes, b: byte)
    returns (r: Result<()>)
    requires source.Valid() && |s| > 0 && s[0] == b && Known(b, smpTypes) && source.Remaining() == s[1..]
    modifies source, sink
    ensures source.Valid()
    ensures var n := NextPacket(s, smpTypes);
      && (n.Err? ==> r == Err(n.error) && sink.written == old(sink.written))
      && (n.Ok? ==> r.Ok? && sink.written == old(sink.written) + n.value && source.Remaining() == s[|n.value|..])
  {
    if TdsPacket.IsTdsPacketType(b) {
      var packet := TdsPacket.ReadSinglePacket(source, b, false);
      if packet.Err? {
        return Err(packet.error);
      }
      var data := TdsPacket.PacketData(packet.value);
      sink.Write(data.value);
      assert source.Remaining() == s[|data.value|..];
    } else {
      var packet := Smp.ReadSmp(source, false, Some(b), smpTypes);
      if packet.Err? {
        return Err(packet.error);
      }
      Smp.WriteSmp(packet.value.value, sink);
      assert source.Remaining() == s[|packet.value.value.data|..];
    }
    r := Ok(());
  }

  /**
   * The loop itself: peek a type byte with a one-byte read, read the
   * packet after it from the same stream, write it to the sink; stop at
   * the end of the source, on a packet reader's failure, and on an
   * unknown type.
   */
  method Pump(source: InputStream, sink: OutputStream, smpTypes: set<byte>) returns (stop: Stop)
    requires source.Valid()
    modifies source, sink
    ensures source.Valid()
    ensures var f := Forward(old(source.Remaining()), smpTypes);
      sink.written == old(sink.written) + f.0 && stop == f.1
  {
    ghost var start := sink.written;
    ghost var whole := Forward(source.Remaining(), smpTypes);
    ghost var sent: bytes := [];
    ghost var rest := source.Remaining();
    StartsEmpty(whole);
    var packetTypeBuffer := new byte[1];
    while true
      invariant source.Valid() && rest == source.Remaining()
      invariant sink.written == start + sent
      invariant Sends(whole, sent, Forward(rest, smpTypes))
      decreases |source.data| - source.pos
    {
      ghost var before := sink.written;
      var done := ForwardOne(source, sink, smpTypes, packetTypeBuffer);
      if done.Some? {
        StopsHere(whole, sent, Forward(rest, smpTypes));
        return done.value;
      }
      ghost var w := sink.written[|before|..];
      ghost var next := source.Remaining();
      GoesOn(whole, sent, w, Forward(rest, smpTypes), Forward(next, smpTypes));
      Appended(start, sent, before, sink.written);
      sent := sent + w;
      rest := next;
    }
  }

  /** Loop invariant: what was sent plus what forwarding the rest sends is what forwarding the whole sends. */
  ghost predicate Sends(whole: (bytes, Stop), sent: bytes, tail: (bytes, Stop))
  {
    whole.0 == sent + tail.0 && whole.1 == tail.1
  }

  /** Before the first packet nothing has been sent. */
  lemma StartsEmpty(whole: (bytes, Stop))
    ensures Sends(whole, [], whole)
  {
    assert [] + whole.0 == whole.0;
  }

  /** Where the loop stops, what it has sent is all forwarding sends. */
  lemma StopsHere(whole: (bytes, Stop), sent: bytes, tail: (bytes, Stop))
    requires Sends(whole, sent, tail) && tail.0 == []
    ensures whole.0 == sent && whole.1 == tail.1
  {
    assert sent + [] == sent;
  }

  /** One packet forwarded keeps the invariant. */
  lemma GoesOn(whole: (bytes, Stop), sent: bytes, w: bytes, tail: (bytes, Stop), next: (bytes, Stop))
    requires Sends(whole, sent, tail) && tail.0 == w + next.0 && tail.1 == next.1
    ensures Sends(whole, sent + w, next)
  {
    assert sent + (w + next.0) == (sent + w) + next.0;
  }

  /** The sink grows by exactly what was just written. */
  lemma Appended(start: bytes, sent: bytes, before: bytes, after: bytes)
    requires before == start + sent && before <= after
    ensures after == start + (sent + after[|before|..])
  {
    assert after == before + after[|before|..];
  }

  /**
   * One turn of the loop: the type byte peeked, then the packet after it
   * forwarded. The loop stops with the reason when the peer has closed,
   * sent an unknown type or a packet the reader refuses; otherwise the
   * packet's bytes were written and forwarding goes on after them.
   */
  method ForwardOne(source: InputStream, sink: OutputStream, smpTypes: set<byte>, packetTypeBuffer: array<byte>)
    returns (done: Option<Stop>)
    requires source.Valid() && packetTypeBuffer.Length == 1
    modifies source, sink, packetTypeBuffer
    ensures source.Valid()
    ensures var f := Forward(old(source.Remaining()), smpTypes);
      && (done.Some? ==> f == ([], done.value) && sink.written == old(sink.written))
      && (done.None? ==>
            && old(sink.written) <= sink.written && source.pos > old(source.pos)
            && f.1 == Forward(source.Remaining(), smpTypes).1
            && f.0 == sink.written[|old(sink.written)|..] + Forward(source.Remaining(), smpTypes).0)
  {
    ghost var s := source.Remaining();
    var peeked := PeekType(source, packetTypeBuffer);
    if peeked.None? {
      return Some(PeerClosed);
    }
    var b := peeked.value;
    if !Known(b, smpTypes) {
      return Some(UnexpectedType(b));
    }
    ghost var before := sink.written;
    var r := ForwardPacket(source, sink, smpTypes, s, b);
    if r.Err? {
      return Some(Failed(r.error));
    }
    ghost var w := NextPacket(s, smpTypes).value;
    ForwardStep(s, smpTypes, w);
    assert sink.written[|before|..] == w;
    done := None;
  }

  /** The one-byte read that fetches the next packet's type: nothing at the end of the stream. */
  method PeekType(source: InputStream, packetTypeBuffer: array<byte>) returns (r: Option<byte>)
    requires source.Valid() && packetTypeBuffer.Length == 1
    modifies source, packetTypeBuffer
    ensures source.Valid()
    ensures var s := old(source.Remaining());
      && (|s| == 0 ==> r.None? && source.Remaining() == s)
      && (|s| > 0 ==> r == Some(s[0]) && source.Remaining() == s[1..])
  {
    ghost var at := source.pos;
    var bytesRead := source.ReadInto(packetTypeBuffer, 0, 1);
    if bytesRead == 0 {
      return None;
    }
    assert packetTypeBuffer[0..1] == source.data[at..at + 1];
    r := Some(packetTypeBuffer[0]);
  }
}
