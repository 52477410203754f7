/** SUBSCRIBE (section 3.8): a list of topic filters and requested QoS survives the wire. */
module MqttSubscribe {
  import opened Histories
  import opened Octets
  import opened MqttWire

  const SUBSCRIBE := 8
  const UNSUBSCRIBE := 10

  // A filter with its requested QoS, which travels in one signed character.
  datatype Topic = Topic(filter: seq<Byte>, qos: nat)

  predicate ValidTopics(ts: seq<Topic>) {
    forall k :: 0 <= k < |ts| ==> |ts[k].filter| < 0x1_0000 && ts[k].qos < 128
  }

  function TopicBytes(t: Topic): seq<Byte> {
    Str(t.filter) + [t.qos % 0x100]
  }

  function TopicsBytes(ts: seq<Topic>): seq<Byte> {
    if ts == [] then [] else TopicBytes(ts[0]) + TopicsBytes(ts[1..])
  }

  lemma {:induction false} TopicsAppend(a: seq<Topic>, b: seq<Topic>)
    ensures TopicsBytes(a + b) == TopicsBytes(a) + TopicsBytes(b)
  {
    if a == [] {
      assert a + b == b;
    } else {
      assert (a + b)[1..] == a[1..] + b;
      TopicsAppend(a[1..], b);
    }
  }

  function Body(packetId: U16, ts: seq<Topic>): seq<Byte> {
    Int16(packetId) + TopicsBytes(ts)
  }

  function SubscribeBytes(dup: nat, packetId: U16, ts: seq<Topic>): seq<Byte> {
    Packet(Header(SUBSCRIBE, dup, 1, 0), Body(packetId, ts))
  }

  // The topics that the two argument arrays describe.
  function Topics(filters: seq<MQTTString>, qoss: seq<nat>): seq<Topic>
    requires |filters| == |qoss|
  {
    seq(|filters|, k requires 0 <= k < |filters| => Topic(filters[k].Text(), qoss[k]))
  }

  lemma TopicsExtend(ts: seq<Topic>, i: nat)
    requires i < |ts|
    ensures TopicsBytes(ts[..i + 1]) == TopicsBytes(ts[..i]) + TopicBytes(ts[i])
    ensures |TopicsBytes(ts[..i + 1])| <= |TopicsBytes(ts)|
  {
    var one := [ts[i]];
    assert ts[..i + 1] == ts[..i] + one;
    assert one[1..] == [];
    TopicsAppend(ts[..i], one);
    assert ts == ts[..i + 1] + ts[i + 1..];
    TopicsAppend(ts[..i + 1], ts[i + 1..]);
  }

  /** The declared length is the number of body bytes that will be written. */
  method SubscribeLength(filters: seq<MQTTString>, ghost qoss: seq<nat>) returns (len: nat)
    requires |filters| == |qoss|
    ensures forall packetId :: len == |Body(packetId, Topics(filters, qoss))|
  {
    ghost var ts := Topics(filters, qoss);
    len := 2;
    for i := 0 to |filters|
      invariant len == 2 + |TopicsBytes(ts[..i])|
    {
      var n := StrLen(filters[i]);
      len := len + 2 + n + 1;
      TopicsExtend(ts, i);
    }
    assert ts[..|filters|] == ts;
  }

  // The body of the writing loop.
  method WriteTopic(buf: array<Byte>, pos: nat, filter: MQTTString, qos: nat) returns (ptr: nat)
    requires filter.Proper() && pos + 3 + |filter.Text()| <= buf.Length
    modifies buf
    ensures ptr == pos + 3 + |filter.Text()|
    ensures Put(old(buf[..]), pos, TopicBytes(Topic(filter.Text(), qos)), buf[..])
  {
    ptr := WriteMQTTString(buf, pos, filter);
    ghost var mid := buf[..];
    ptr := WriteChar(buf, ptr, qos % 0x100);
    PutPut(old(buf[..]), pos, Str(filter.Text()), mid, [qos % 0x100], buf[..]);
  }

  lemma PutTopic(b0: seq<Byte>, head: seq<Byte>, ts: seq<Topic>, i: nat, before: seq<Byte>, after: seq<Byte>)
    requires i < |ts| && Put(b0, 0, head + TopicsBytes(ts[..i]), before)
    requires Put(before, |head| + |TopicsBytes(ts[..i])|, TopicBytes(ts[i]), after)
    ensures Put(b0, 0, head + TopicsBytes(ts[..i + 1]), after)
  {
    PutPut(b0, 0, head + TopicsBytes(ts[..i]), before, TopicBytes(ts[i]), after);
    Regroup(head, TopicsBytes(ts[..i]), TopicBytes(ts[i]));
    TopicsExtend(ts, i);
  }

  method SerializeSubscribe(buf: array<Byte>, dup: nat, packetId: U16, filters: seq<MQTTString>, qoss: seq<nat>)
    returns (rc: int)
    requires |filters| == |qoss| && forall k :: 0 <= k < |filters| ==> filters[k].Proper()
    requires |Body(packetId, Topics(filters, qoss))| <= MAX_REMAINING
    modifies buf
    ensures var ts := Topics(filters, qoss);
      if PacketLen(|Body(packetId, ts)|) > buf.Length then
        rc == BUFFER_TOO_SHORT && buf[..] == old(buf[..])
      else
        rc == |SubscribeBytes(dup, packetId, ts)| && Put(old(buf[..]), 0, SubscribeBytes(dup, packetId, ts), buf[..])
  {
    ghost var ts := Topics(filters, qoss);
    var remLen := SubscribeLength(filters, qoss);
    assert remLen == |Body(packetId, ts)|;
    PacketLenIsSafe(remLen);
    if PacketLen(remLen) > buf.Length {
      return BUFFER_TOO_SHORT;
    }
    var header := Header(SUBSCRIBE, dup, 1, 0);
    ghost var b0, head := buf[..], [header] + Rem(remLen) + Int16(packetId);
    var ptr := WriteHead(buf, header, remLen);
    ghost var b1 := buf[..];
    ptr := WriteInt(buf, ptr, packetId);
    PutPut(b0, 0, [header] + Rem(remLen), b1, Int16(packetId), buf[..]);
    ptr := WriteTopics(buf, ptr, filters, qoss, b0, head);
    rc := ptr;
    Regroup([header] + Rem(remLen), Int16(packetId), TopicsBytes(ts));
  }

  // The writing loop, after the head has been put at the start of the buffer b0.
  method WriteTopics(buf: array<Byte>, pos: nat, filters: seq<MQTTString>, qoss: seq<nat>,
                     ghost b0: seq<Byte>, ghost head: seq<Byte>)
    returns (ptr: nat)
    requires |filters| == |qoss| && forall k :: 0 <= k < |filters| ==> filters[k].Proper()
    requires Put(b0, 0, head, buf[..]) && pos == |head|
    requires pos + |TopicsBytes(Topics(filters, qoss))| <= buf.Length
    modifies buf
    ensures ptr == pos + |TopicsBytes(Topics(filters, qoss))|
    ensures Put(b0, 0, head + TopicsBytes(Topics(filters, qoss)), buf[..])
  {
    ghost var ts := Topics(filters, qoss);
    ptr := pos;
    assert head + TopicsBytes(ts[..0]) == head;
    for i := 0 to |filters|
      invariant ptr == |head| + |TopicsBytes(ts[..i])|
      invariant Put(b0, 0, head + TopicsBytes(ts[..i]), buf[..])
    {
      TopicsExtend(ts, i);
      ghost var before := buf[..];
      ptr := WriteTopic(buf, ptr, filters[i], qoss[i]);
      PutTopic(b0, head, ts, i, before, buf[..]);
    }
    assert ts[..|filters|] == ts;
  }

  /** The bytes of SUBSCRIBE and UNSUBSCRIBE (sections 3.8 and 3.10): the types 8 and 10 with the reserved
      bits 0010, the length, the identifier, and each filter after its two-byte length, in SUBSCRIBE with
      its QoS behind it. */
  lemma RequestBytes(packetId: U16, ts: seq<Topic>, filter: seq<Byte>)
    ensures SubscribeBytes(0, packetId, ts) ==
      [RequestFirst(SUBSCRIBE)] + Rem(2 + |TopicsBytes(ts)|) + (Int16(packetId) + TopicsBytes(ts))
    ensures UnsubscribeBytes(packetId, filter) ==
      [RequestFirst(UNSUBSCRIBE)] + Rem(4 + |filter|) + (Int16(packetId) + (Int16(|filter|) + filter))
  {
  }

  function RequestFirst(kind: nat): (h: Byte)
    ensures kind == 8 ==> h == 0x82
    ensures kind == 10 ==> h == 0xA2
  {
    Header(kind, 0, 1, 0)
  }

  lemma LastTopicBytes(ts: seq<Topic>, t: Topic)
    requires t.qos < 128
    ensures TopicsBytes(ts + [t]) == TopicsBytes(ts) + (Int16(|t.filter|) + t.filter + [t.qos]) && TopicsBytes([]) == []
  {
    TopicsExtend(ts + [t], |ts|);
    assert (ts + [t])[..|ts|] == ts && (ts + [t])[..|ts| + 1] == ts + [t];
  }

  // The packet that asks for one filter.
  lemma OneTopic(packetId: U16, filter: MQTTString, qos: nat)
    ensures Topics([filter], [qos]) == [Topic(filter.Text(), qos)]
    ensures |Body(packetId, [Topic(filter.Text(), qos)])| == 5 + |filter.Text()|
  {
    var one := [Topic(filter.Text(), qos)];
    assert one[1..] == [];
    assert TopicsBytes(one) == TopicBytes(one[0]) + [];
  }

  function UnsubscribeBytes(packetId: U16, filter: seq<Byte>): seq<Byte> {
    Packet(Header(UNSUBSCRIBE, 0, 1, 0), Int16(packetId) + Str(filter))
  }

  // MQTTSerialize_unsubscribe for one filter and no DUP flag, as the client calls it.
  method SerializeUnsubscribe(buf: array<Byte>, packetId: U16, filter: MQTTString) returns (rc: int)
    requires filter.Proper() && 4 + |filter.Text()| <= MAX_REMAINING
    modifies buf
    ensures if PacketLen(4 + |filter.Text()|) > buf.Length then
        rc == BUFFER_TOO_SHORT && buf[..] == old(buf[..])
      else
        rc == |UnsubscribeBytes(packetId, filter.Text())| && Put(old(buf[..]), 0, UnsubscribeBytes(packetId, filter.Text()), buf[..])
  {
    var n := StrLen(filter);
    var remLen := 4 + n;
    PacketLenIsSafe(remLen);
    if PacketLen(remLen) > buf.Length {
      return BUFFER_TOO_SHORT;
    }
    var header := Header(UNSUBSCRIBE, 0, 1, 0);
    ghost var b0, head := buf[..], [header] + Rem(remLen);
    var ptr := WriteHead(buf, header, remLen);
    ghost var b1 := buf[..];
    ptr := WriteInt(buf, ptr, packetId);
    ghost var b2 := buf[..];
    PutPut(b0, 0, head, b1, Int16(packetId), b2);
    ptr := WriteMQTTString(buf, ptr, filter);
    PutPut(b0, 0, head + Int16(packetId), b2, Str(filter.Text()), buf[..]);
    Regroup(head, Int16(packetId), Str(filter.Text()));
    rc := ptr;
  }

  // Exactly the given topics are left between pos and end.
  ghost predicate Left(buf: seq<Byte>, pos: nat, end: nat, ts: seq<Topic>) {
    ValidTopics(ts) && At(buf, pos, TopicsBytes(ts)) && pos + |TopicsBytes(ts)| == end <= |buf|
  }

  lemma NextTopic(buf: seq<Byte>, pos: nat, end: nat, ts: seq<Topic>) returns (q: nat)
    requires Left(buf, pos, end, ts) && pos < end
    ensures ts != [] && q == pos + 2 + |ts[0].filter| < end <= |buf|
    ensures IntAt(buf, pos) == |ts[0].filter| && buf[pos + 2..q] == ts[0].filter
    ensures buf[q] == ts[0].qos && Left(buf, q + 1, end, ts[1..])
  {
    AtSplit(buf, pos, TopicBytes(ts[0]), TopicsBytes(ts[1..]));
    AtSplit(buf, pos, Str(ts[0].filter), [ts[0].qos % 0x100]);
    StringRoundTrip(buf, pos, ts[0].filter);
    q := pos + 2 + |ts[0].filter|;
    assert buf[q] == [ts[0].qos % 0x100][0];
  }

  // The body of the reading loop; false when the data runs out inside an element.
  method ReadTopic(buf: seq<Byte>, pos: nat, end: nat, ghost ts: seq<Topic>)
    returns (ok: bool, t: Topic, cur: nat)
    requires Left(buf, pos, end, ts) && pos < end
    ensures ok && ts != [] && t == ts[0] && Left(buf, cur, end, ts[1..]) && pos < cur
  {
    ghost var q := NextTopic(buf, pos, end, ts);
    var filter;
    t := Topic([], 0);
    ok, filter, cur := ReadLenString(buf, pos, end);
    if !ok {
      return;
    }
    if cur >= end {
      ok := false;
      return;
    }
    t := Topic(filter, buf[cur]);
    cur := cur + 1;
  }

  method ReadTopics(buf: seq<Byte>, pos: nat, end: nat, filters: array<seq<Byte>>, qoss: array<nat>,
                    ghost ts: seq<Topic>)
    returns (ok: bool, count: nat)
    requires Left(buf, pos, end, ts)
    requires |ts| <= filters.Length && |ts| <= qoss.Length
    modifies filters, qoss
    ensures ok && count == |ts|
    ensures forall k :: 0 <= k < count ==> filters[k] == ts[k].filter && qoss[k] == ts[k].qos
    ensures forall k :: count <= k < filters.Length ==> filters[k] == old(filters[k])
    ensures forall k :: count <= k < qoss.Length ==> qoss[k] == old(qoss[k])
  {
    ok, count := true, 0;
    var cur := pos;
    ghost var left := ts;
    while cur < end
      invariant ok && count <= |ts| && left == ts[count..]
      invariant Left(buf, cur, end, left)
      invariant forall k :: 0 <= k < count ==> filters[k] == ts[k].filter && qoss[k] == ts[k].qos
      invariant forall k :: count <= k < filters.Length ==> filters[k] == old(filters[k])
      invariant forall k :: count <= k < qoss.Length ==> qoss[k] == old(qoss[k])
      decreases end - cur
    {
      var t;
      ok, t, cur := ReadTopic(buf, cur, end, left);
      if !ok {
        return;
      }
      assert t == ts[count] && left[1..] == ts[count + 1..];
      filters[count] := t.filter;
      qoss[count] := t.qos;
      count := count + 1;
      left := left[1..];
    }
  }

  /** MQTTDeserialize_subscribe recovers the identifier and the exact list, in order, into the
      caller's arrays; it never checks that the list fits them, so the caller must. */
  method DeserializeSubscribe(buf: seq<Byte>, filters: array<seq<Byte>>, qoss: array<nat>,
                              ghost d: nat, ghost id: U16, ghost ts: seq<Topic>)
    returns (rc: int, dup: nat, packetId: nat, count: nat)
    requires d < 2 && ValidTopics(ts) && |Body(id, ts)| <= MAX_REMAINING
    requires Framed(buf, Header(SUBSCRIBE, d, 1, 0), Body(id, ts))
    requires |ts| <= filters.Length && |ts| <= qoss.Length
    modifies filters, qoss
    ensures rc == 1 && dup == d && packetId == id && count == |ts|
    ensures forall k :: 0 <= k < count ==> filters[k] == ts[k].filter && qoss[k] == ts[k].qos
    ensures forall k :: count <= k < filters.Length ==> filters[k] == old(filters[k])
    ensures forall k :: count <= k < qoss.Length ==> qoss[k] == old(qoss[k])
  {
    HeaderRoundTrip(SUBSCRIBE, d, 1, 0);
    rc, dup, packetId, count := -1, 0, 0, 0;
    var header := buf[0];
    if Kind(header) != SUBSCRIBE {
      return;
    }
    dup := Dup(header);
    var used, myLen := ReadLength(buf, header, Body(id, ts));
    rc := used;
    var cur, end := 1 + used, 1 + used + myLen;
    AtSplit(buf, cur, Int16(id), TopicsBytes(ts));
    IntRoundTrip(buf, cur, id);
    packetId, cur := ReadInt(buf, cur);
    var ok;
    ok, count := ReadTopics(buf, cur, end, filters, qoss, ts);
    if ok {
      rc := 1;
    }
  }

  /** Serializing and deserializing in one: the exact list comes back, in order. */
  method RoundTrip(buf: array<Byte>, d: nat, id: U16, filters: seq<MQTTString>, qoss: seq<nat>,
                   outFilters: array<seq<Byte>>, outQoss: array<nat>)
    returns (rc: int, dup: nat, packetId: nat, count: nat)
    requires |filters| == |qoss| && forall k :: 0 <= k < |filters| ==> filters[k].Proper()
    requires d < 2 && ValidTopics(Topics(filters, qoss)) && |Body(id, Topics(filters, qoss))| <= MAX_REMAINING
    requires |filters| <= outFilters.Length && |filters| <= outQoss.Length
    modifies buf, outFilters, outQoss
    ensures if PacketLen(|Body(id, Topics(filters, qoss))|) > buf.Length then rc == BUFFER_TOO_SHORT
            else rc == 1 && dup == d && packetId == id && count == |filters|
    ensures rc == 1 ==>
      forall k :: 0 <= k < |filters| ==> outFilters[k] == filters[k].Text() && outQoss[k] == qoss[k]
  {
    ghost var ts := Topics(filters, qoss);
    dup, packetId, count := 0, 0, 0;
    rc := SerializeSubscribe(buf, d, id, filters, qoss);
    if rc <= 0 {
      return;
    }
    FramedIsPacket(buf[..], Header(SUBSCRIBE, d, 1, 0), Body(id, ts));
    rc, dup, packetId, count := DeserializeSubscribe(buf[..], outFilters, outQoss, d, id, ts);
  }
}
