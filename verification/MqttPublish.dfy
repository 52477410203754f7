/** PUBLISH (section 3.3) and the four-byte acknowledgements: what is written is what is read. */
module MqttPublish {
  import opened Histories
  import opened Octets
  import opened Optional
  import opened MqttWire

  const PUBLISH := 3
  const PUBREL := 6

  datatype Publish = Publish(
    dup: nat, qos: nat, retained: nat, packetId: U16, topic: seq<Byte>, payload: seq<Byte>)
  {
    predicate Valid() {
      dup < 2 && qos < 4 && retained < 2 && |topic| < 0x1_0000 && |Body()| <= MAX_REMAINING
    }

    // The packet identifier travels only at QoS 1 and above.
    function Body(): seq<Byte> {
      Str(topic) + (if qos > 0 then Int16(packetId) else []) + payload
    }

    function First(): Byte {
      Header(PUBLISH, dup, qos, retained)
    }

    function Bytes(): seq<Byte> {
      Packet(First(), Body())
    }
  }

  /** The bytes of a PUBLISH (section 3.3): type 3 and the flags, then the body: the topic after its
      two-byte length, the identifier at QoS 1 and above, the payload. */
  lemma PublishBytes(p: Publish)
    requires p.Valid()
    ensures p.First() == 0x30 + 8 * p.dup + 2 * p.qos + p.retained
    ensures p.Bytes() == [p.First()] + Rem(|p.Body()|) + p.Body()
    ensures p.Body() == Int16(|p.topic|) + p.topic + (if p.qos > 0 then Int16(p.packetId) else []) + p.payload
  {
    HeaderRoundTrip(PUBLISH, p.dup, p.qos, p.retained);
  }

  /** The declared length is the number of body bytes of any packet with this QoS, this topic and
      a payload of this length. */
  method PublishLength(qos: nat, topic: MQTTString, payloadLen: nat) returns (len: nat)
    ensures forall p: Publish ::
      p.qos == qos && p.topic == topic.Text() && |p.payload| == payloadLen ==> len == |p.Body()|
  {
    var n := StrLen(topic);
    len := 2 + n + payloadLen;
    if qos > 0 {
      len := len + 2;
    }
  }

  /** MQTTSerialize_publish writes the packet and nothing else, entirely inside the buffer,
      or reports that the buffer is too short and writes nothing. */
  method SerializePublish(buf: array<Byte>, dup: nat, qos: nat, retained: nat, packetId: U16,
                          topic: MQTTString, payload: seq<Byte>)
    returns (rc: int)
    requires topic.Proper()
    requires |Publish(dup, qos, retained, packetId, topic.Text(), payload).Body()| <= MAX_REMAINING
    modifies buf
    ensures var p := Publish(dup, qos, retained, packetId, topic.Text(), payload);
      if PacketLen(|p.Body()|) > buf.Length then
        rc == BUFFER_TOO_SHORT && buf[..] == old(buf[..])
      else
        rc == |p.Bytes()| && Put(old(buf[..]), 0, p.Bytes(), buf[..])
  {
    ghost var p := Publish(dup, qos, retained, packetId, topic.Text(), payload);
    var remLen := PublishLength(qos, topic, |payload|);
    PacketLenIsSafe(remLen);
    if PacketLen(remLen) > buf.Length {
      return BUFFER_TOO_SHORT;
    }
    ghost var b0 := buf[..];
    var ptr := WriteHead(buf, Header(PUBLISH, dup, qos, retained), remLen);
    ghost var b1 := buf[..];
    ptr := WriteBody(buf, ptr, qos, packetId, topic, payload);
    PutPut(b0, 0, [p.First()] + Rem(remLen), b1, p.Body(), buf[..]);
    rc := ptr;
  }

  // Topic, identifier if any, payload.
  method WriteBody(buf: array<Byte>, pos: nat, qos: nat, packetId: U16, topic: MQTTString, payload: seq<Byte>)
    returns (ptr: nat)
    requires topic.Proper()
    requires pos + |Str(topic.Text()) + (if qos > 0 then Int16(packetId) else []) + payload| <= buf.Length
    modifies buf
    ensures var body := Str(topic.Text()) + (if qos > 0 then Int16(packetId) else []) + payload;
      ptr == pos + |body| && Put(old(buf[..]), pos, body, buf[..])
  {
    ghost var b0, name, id := buf[..], Str(topic.Text()), if qos > 0 then Int16(packetId) else [];
    ptr := WriteMQTTString(buf, pos, topic);
    ghost var b1 := buf[..];
    if qos > 0 {
      ptr := WriteInt(buf, ptr, packetId);
    }
    ghost var b2 := buf[..];
    PutPut(b0, pos, name, b1, id, b2);
    ptr := WriteBytes(buf, ptr, payload);
    PutPut(b0, pos, name + id, b2, payload, buf[..]);
  }

  // Where the parts of a PUBLISH body lie.
  lemma BodyParts(buf: seq<Byte>, pos: nat, p: Publish)
    requires p.Valid() && At(buf, pos, p.Body())
    ensures var name := pos + 2 + |p.topic|;
      var data := name + if p.qos > 0 then 2 else 0;
      && data <= pos + |p.Body()| <= |buf|
      && IntAt(buf, pos) == |p.topic| && buf[pos + 2..name] == p.topic
      && (p.qos > 0 ==> IntAt(buf, name) == p.packetId)
      && buf[data..pos + |p.Body()|] == p.payload
  {
    var id := if p.qos > 0 then Int16(p.packetId) else [];
    AtSplit(buf, pos, Str(p.topic) + id, p.payload);
    AtSplit(buf, pos, Str(p.topic), id);
    StringRoundTrip(buf, pos, p.topic);
    if p.qos > 0 {
      IntRoundTrip(buf, pos + 2 + |p.topic|, p.packetId);
    }
    AtSlice(buf, pos + |Str(p.topic) + id|, p.payload);
  }

  // The topic lies before the end of the packet.
  predicate TopicFits(buf: seq<Byte>)
    requires Holds(buf)
  {
    BodyAt(buf) + 2 <= EndAt(buf) && NameEnd(buf) <= EndAt(buf)
  }

  function NameEnd(buf: seq<Byte>): nat
    requires Holds(buf) && BodyAt(buf) + 2 <= EndAt(buf)
  {
    BodyAt(buf) + 2 + IntAt(buf, BodyAt(buf))
  }

  // Where the reader takes the payload to begin; it does not look whether the packet goes on so far.
  function PayloadAt(buf: seq<Byte>): nat
    requires Holds(buf) && TopicFits(buf)
  {
    NameEnd(buf) + if Qos(buf[0]) > 0 then 2 else 0
  }

  // The memory it reads is there; after a packet cut off at its identifier that is up to two bytes more.
  predicate Readable(buf: seq<Byte>) {
    buf != [] && (Kind(buf[0]) == PUBLISH ==> Holds(buf) && (TopicFits(buf) ==> PayloadAt(buf) <= |buf|))
  }

  /** MQTTDeserialize_publish on any bytes whatever. It fails for another kind of packet; it reports
      the size of the length field when the topic does not fit, which for a one-byte field reads as
      success; and it finds a payload of negative length exactly when the identifier does not fit. */
  method DeserializePublish(buf: seq<Byte>)
    returns (rc: int, dup: nat, qos: nat, retained: nat, packetId: Option<U16>, topic: seq<Byte>,
             payloadAt: nat, payloadLen: int)
    requires Readable(buf)
    ensures Kind(buf[0]) != PUBLISH ==> rc == 0
    ensures Kind(buf[0]) == PUBLISH ==> dup == Dup(buf[0]) && qos == Qos(buf[0]) && retained == Retain(buf[0])
    ensures Kind(buf[0]) == PUBLISH && !TopicFits(buf) ==> rc == FieldSize(buf) && payloadLen == 0
    ensures Kind(buf[0]) == PUBLISH && TopicFits(buf) ==>
      && rc == 1 && topic == buf[BodyAt(buf) + 2..NameEnd(buf)]
      && packetId == (if qos > 0 then Some(IntAt(buf, NameEnd(buf))) else None)
      && payloadAt == PayloadAt(buf) && payloadAt + payloadLen == EndAt(buf)
    ensures rc == 1 <==> Kind(buf[0]) == PUBLISH && (TopicFits(buf) || FieldSize(buf) == 1)
    ensures payloadLen < 0 <==>
      Kind(buf[0]) == PUBLISH && Qos(buf[0]) > 0 && TopicFits(buf) && NameEnd(buf) + 2 > EndAt(buf)
  {
    rc, dup, qos, retained, packetId, topic, payloadAt, payloadLen := 0, 0, 0, 0, None, [], 0, 0;
    var header := buf[0];
    if Kind(header) != PUBLISH {
      return;
    }
    dup, qos, retained := Dup(header), Qos(header), Retain(header);
    var used, myLen := DecodeBuf(buf, 1);
    rc := used;
    var cur, end := 1 + used, 1 + used + myLen;
    var ok;
    ok, topic, cur := ReadLenString(buf, cur, end);
    if !ok {
      return;
    }
    if qos > 0 {
      var v;
      v, cur := ReadInt(buf, cur);
      packetId := Some(v);
    }
    payloadAt := cur;
    payloadLen := end as int - cur as int;
    rc := 1;
  }

  /** A PUBLISH at QoS 1 or above that ends after its empty topic is accepted, with a payload of length -2. */
  lemma CutIdentifier(buf: seq<Byte>)
    requires |buf| == 6 && Kind(buf[0]) == PUBLISH && Qos(buf[0]) > 0
    requires buf[1] == 2 && buf[2] == buf[3] == 0
    ensures Readable(buf) && TopicFits(buf) && EndAt(buf) - PayloadAt(buf) == -2
  {
    ShortField(buf);
  }

  /** A PUBLISH without any body is not a packet of the protocol; the reader reports success. */
  lemma EmptyBodyAccepted()
    ensures var buf := [Header(PUBLISH, 0, 0, 0), 0]; Readable(buf) && !TopicFits(buf) && FieldSize(buf) == 1
  {
    var buf := [Header(PUBLISH, 0, 0, 0), 0];
    ShortField(buf);
  }

  // A serialized PUBLISH at the head of the buffer, as the reader sees it.
  lemma WrittenIsReadable(buf: seq<Byte>, p: Publish)
    requires p.Valid() && Framed(buf, p.First(), p.Body())
    ensures Readable(buf) && Kind(buf[0]) == PUBLISH && TopicFits(buf)
    ensures Dup(buf[0]) == p.dup && Qos(buf[0]) == p.qos && Retain(buf[0]) == p.retained
    ensures buf[BodyAt(buf) + 2..NameEnd(buf)] == p.topic
    ensures p.qos > 0 ==> IntAt(buf, NameEnd(buf)) == p.packetId
    ensures PayloadAt(buf) <= EndAt(buf) && buf[PayloadAt(buf)..EndAt(buf)] == p.payload
  {
    HeaderRoundTrip(PUBLISH, p.dup, p.qos, p.retained);
    BodyIsReadable(buf, p.First(), p);
  }

  lemma BodyIsReadable(buf: seq<Byte>, first: Byte, p: Publish)
    requires p.Valid() && Framed(buf, first, p.Body()) && Kind(first) == PUBLISH && Qos(first) == p.qos
    ensures Readable(buf) && TopicFits(buf)
    ensures buf[BodyAt(buf) + 2..NameEnd(buf)] == p.topic
    ensures p.qos > 0 ==> IntAt(buf, NameEnd(buf)) == p.packetId
    ensures PayloadAt(buf) <= EndAt(buf) && buf[PayloadAt(buf)..EndAt(buf)] == p.payload
  {
    FramedIsFound(buf, first, p.Body());
    BodyParts(buf, BodyAt(buf), p);
  }

  /** Serializing and deserializing in one: whenever the buffer is large enough, every field of
      the message comes back, for any topic in either string form and any payload. */
  method RoundTrip(buf: array<Byte>, dup: nat, qos: nat, retained: nat, packetId: U16, topic: MQTTString,
                   payload: seq<Byte>)
    returns (rc: int, m: Publish)
    requires topic.Proper() && Publish(dup, qos, retained, packetId, topic.Text(), payload).Valid()
    modifies buf
    ensures var p := Publish(dup, qos, retained, packetId, topic.Text(), payload);
      if PacketLen(|p.Body()|) > buf.Length then rc == BUFFER_TOO_SHORT
      else rc == 1 && m == if qos > 0 then p else p.(packetId := 0)
  {
    ghost var p := Publish(dup, qos, retained, packetId, topic.Text(), payload);
    m := Publish(0, 0, 0, 0, [], []);
    rc := SerializePublish(buf, dup, qos, retained, packetId, topic, payload);
    if rc <= 0 {
      return;
    }
    FramedIsPacket(buf[..], p.First(), p.Body());
    WrittenIsReadable(buf[..], p);
    var d, q, r, id, name, at, len;
    rc, d, q, r, id, name, at, len := DeserializePublish(buf[..]);
    m := Publish(d, q, r, if id.Some? then id.value else 0, name, buf[at..at + len]);
  }

  // PUBACK, PUBREC, PUBREL, PUBCOMP, UNSUBACK.
  function AckFirst(kind: nat, dup: nat): Byte {
    Header(kind, dup, if kind == PUBREL then 1 else 0, 0)
  }

  function AckBytes(kind: nat, dup: nat, packetId: U16): seq<Byte> {
    Packet(AckFirst(kind, dup), Int16(packetId))
  }

  /** The first byte of an acknowledgement (sections 3.4 to 3.7): PUBREL has the reserved bits 0010. */
  lemma AckFirstIs(kind: nat)
    requires kind < 16
    ensures AckFirst(kind, 0) == 16 * kind + if kind == 6 then 2 else 0
  {
    HeaderRoundTrip(kind, 0, if kind == PUBREL then 1 else 0, 0);
  }

  // The other three, and a packet without a body.
  lemma ShortPackets(header: Byte, packetId: U16)
    ensures Packet(header, Int16(packetId)) == [header, 2] + Int16(packetId)
    ensures Packet(header, []) == [header, 0]
  {
  }

  // MQTTSerialize_ack
  method SerializeAck(buf: array<Byte>, kind: nat, dup: nat, packetId: U16) returns (rc: int)
    modifies buf
    ensures if buf.Length < 4 then rc == BUFFER_TOO_SHORT && buf[..] == old(buf[..])
            else rc == 4 == |AckBytes(kind, dup, packetId)| && Put(old(buf[..]), 0, AckBytes(kind, dup, packetId), buf[..])
  {
    if buf.Length < 4 {
      return BUFFER_TOO_SHORT;
    }
    var header := Header(kind, dup, if kind == PUBREL then 1 else 0, 0);
    var ptr := WriteHead(buf, header, 2);
    ghost var mid := buf[..];
    ptr := WriteInt(buf, ptr, packetId);
    PutPut(old(buf[..]), 0, [header] + Rem(2), mid, Int16(packetId), buf[..]);
    rc := ptr;
  }

  /** MQTTDeserialize_ack on any bytes whatever: success means an identifier was read, or none was
      and the length field took one byte. */
  method DeserializeAck(buf: seq<Byte>) returns (rc: int, myKind: nat, myDup: nat, myId: Option<nat>)
    requires Holds(buf)
    ensures myKind == Kind(buf[0]) && myDup == Dup(buf[0])
    ensures if Field(buf).value < 2 then rc == FieldSize(buf) && myId == None
            else rc == 1 && myId == Some(IntAt(buf, BodyAt(buf)))
  {
    var header := buf[0];
    myDup, myKind, myId := Dup(header), Kind(header), None;
    var used, myLen := DecodeBuf(buf, 1);
    rc := used;
    var cur := 1 + used;
    if myLen < 2 {
      return;
    }
    var v;
    v, cur := ReadInt(buf, cur);
    myId := Some(v);
    rc := 1;
  }

  /** A serialized acknowledgement is read back: its kind, its DUP flag and its identifier. */
  lemma AckRoundTrip(buf: seq<Byte>, kind: nat, dup: nat, packetId: U16)
    requires kind < 16 && dup < 2 && At(buf, 0, AckBytes(kind, dup, packetId))
    ensures Holds(buf) && Kind(buf[0]) == kind && Dup(buf[0]) == dup
    ensures Field(buf).value >= 2 && IntAt(buf, BodyAt(buf)) == packetId
  {
    FramedIsPacket(buf, AckFirst(kind, dup), Int16(packetId));
    HeaderRoundTrip(kind, dup, if kind == PUBREL then 1 else 0, 0);
    FramedIsFound(buf, AckFirst(kind, dup), Int16(packetId));
    IntRoundTrip(buf, BodyAt(buf), packetId);
  }

  // MQTTSerialize_zero: a packet without a body, PINGREQ or DISCONNECT.
  method SerializeZero(buf: array<Byte>, kind: nat) returns (rc: int)
    modifies buf
    ensures if buf.Length < 2 then rc == BUFFER_TOO_SHORT && buf[..] == old(buf[..])
            else rc == 2 && Put(old(buf[..]), 0, Packet(Header(kind, 0, 0, 0), []), buf[..])
  {
    if buf.Length < 2 {
      return BUFFER_TOO_SHORT;
    }
    var header := Header(kind, 0, 0, 0);
    var ptr := WriteHead(buf, header, 0);
    assert Packet(header, []) == [header] + Rem(0);
    rc := ptr;
  }
}
