/** From the writer's fields to the reader's: a PUBLISH serialized, sent through any transport with
    anything behind it, read and deserialized. */
module MqttTransfer {
  import opened Octets
  import opened Optional
  import opened MqttWire
  import opened MqttPublish
  import opened MqttReader

  // The packet is at the start of a reader's buffer, so it deserializes.
  method Unpack(buf: array<Byte>, ghost p: Publish) returns (m: Publish)
    requires p.Valid() && At(buf[..], 0, p.Bytes())
    ensures m == if p.qos > 0 then p else p.(packetId := 0)
  {
    FramedIsPacket(buf[..], p.First(), p.Body());
    WrittenIsReadable(buf[..], p);
    var rc, dup, qos, retained, id, topic, at, len := DeserializePublish(buf[..]);
    m := Publish(dup, qos, retained, if id.Some? then id.value else 0, topic, buf[..][at..at + len]);
  }

  // The stream that the packet begins is delivered as the packet, and what is behind it is left.
  lemma SentIsDelivered(p: Publish, rest: seq<Byte>, room: nat)
    requires p.Valid()
    ensures Kind(p.First()) == PUBLISH && |p.Bytes()| == FrameLen(|p.Body()|)
    ensures (p.Bytes() + rest)[|p.Bytes()|..] == rest
    ensures Skipped(p.Bytes() + rest, room) == 0
    ensures Parse(p.Bytes() + rest, room) ==
      if |p.Bytes()| <= room then Complete(PUBLISH, p.Bytes(), |p.Bytes()|) else Bad
    ensures ParseBlocking(p.Bytes() + rest, room, NO_FAULTS) == Parse(p.Bytes() + rest, room)
  {
    HeaderRoundTrip(PUBLISH, p.dup, p.qos, p.retained);
    PacketIsParsed(p.First(), p.Body(), rest, room);
  }

  /** However the stream is cut up, a non-blocking reader with room for the packet that is called often
      enough gets exactly the fields the writer was given, or an error of the transport; with less room
      it never gets a packet. */
  method Transfer(p: Publish, rest: seq<Byte>, room: nat, calls: nat)
    returns (rc: int, m: Publish, ghost trp: Transport)
    requires p.Valid() && room > 4
    ensures rc > 0 ==>
      rc == PUBLISH && |p.Bytes()| <= room && trp.stream == rest && m == if p.qos > 0 then p else p.(packetId := 0)
    ensures rc <= 0 && calls > trp.again + |p.Bytes()| ==> (rc == -1 && trp.broken) || |p.Bytes()| > room
  {
    var stream := p.Bytes() + rest;
    var source := new Transport(stream);
    var buf := new Byte[room];
    ghost var skipped;
    SentIsDelivered(p, rest, room);
    assert stream[0..] == stream;
    rc, skipped := ReadNbUntil(buf, source, calls);
    m, trp := Publish(0, 0, 0, 0, [], []), source;
    if rc > 0 {
      m := Unpack(buf, p);
    }
  }

  /** The blocking reader gets them from the stream in one piece. */
  method TransferBlocking(p: Publish, rest: seq<Byte>, room: nat) returns (rc: int, m: Publish)
    requires p.Valid() && room > 4
    ensures if |p.Bytes()| <= room then rc == PUBLISH && m == if p.qos > 0 then p else p.(packetId := 0)
            else rc == -1
  {
    var buf := new Byte[room];
    m := Publish(0, 0, 0, 0, [], []);
    SentIsDelivered(p, rest, room);
    rc := Read(buf, p.Bytes() + rest, NO_FAULTS);
    if rc > 0 {
      m := Unpack(buf, p);
    }
  }
}
