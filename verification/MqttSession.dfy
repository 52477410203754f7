/** The client session: QoS 2 duplicate suppression (section 4.3.3 of MQTT 3.1.1) and the
    publish kept for sending again on reconnect, driven by arbitrary incoming packets, partial
    writes, send failures and time-outs. */
module MqttSession {
  import opened Octets
  import opened Optional
  import opened MqttWire
  import opened MqttPublish
  import opened MqttConnect
  import MqttSubscribe

  const SUCCESS := 0
  const FAILURE := -1
  const CONNACK := 2
  const PUBACK := 4
  const PUBREC := 5
  const PUBCOMP := 7
  const SUBACK := 9
  const UNSUBACK := 11
  const PINGREQ := 12
  const PINGRESP := 13
  const DISCONNECT := 14
  const MAX_PACKET_ID := 65535
  const MAX_INCOMING_QOS2 := 10

  // The publish kept for sending again; none when the id is 0.
  datatype Flight = Flight(id: U16, qos: nat, packet: seq<Byte>)

  // What has happened, oldest first.
  datatype Event =
    | Read(m: Incoming)             // readPacket came back
    | Offered(packet: seq<Byte>)    // a packet was handed to the network
    | Sent(packet: seq<Byte>)       // and all its bytes were written
    | Arrived(qos: nat, id: U16)    // a PUBLISH came in
    | Delivered(qos: nat, id: U16)  // a message was handed to the application
    | Released(id: U16)             // PUBREL handled, its PUBCOMP sent
    | Stored(flight: Flight)        // a publish at QoS 1 or 2 was kept for sending again
    | Acked(id: U16, kind: int)     // a packet of that kind acknowledged the in-flight publish
    | ForeignAck(id: U16, kind: int) // while that one was waiting, one acknowledged another identifier
    | Cleaned                       // the session state was dropped

  // The most recent of the events that decide about id is its delivery at QoS 2.
  predicate Open(log: seq<Event>, id: U16) {
    if log == [] then false else
      var last := log[|log| - 1];
      if last == Delivered(2, id) then true
      else if last == Released(id) || last == Cleaned then false
      else Open(log[..|log| - 1], id)
  }

  // Two QoS 2 deliveries with one id have a release of that id or a clean session in between.
  ghost predicate AtMostOnce(log: seq<Event>) {
    forall i, j {:trigger log[i], log[j]} ::
      0 <= i < j < |log| && log[i].Delivered? && log[i].qos == 2 && log[j] == log[i] ==>
        exists k :: i < k < j && (log[k] == Released(log[i].id) || log[k] == Cleaned)
  }

  // No release without the PUBCOMP that answers it.
  ghost predicate ReleasesAnswered(log: seq<Event>) {
    forall k :: 0 <= k < |log| && log[k].Released? ==>
      k > 0 && log[k - 1] == Sent(AckBytes(PUBCOMP, 0, log[k].id))
  }

  lemma {:induction false} OpenSince(log: seq<Event>, id: U16, i: nat)
    requires i < |log| && log[i] == Delivered(2, id) && !Open(log, id)
    ensures exists k :: i < k < |log| && (log[k] == Released(id) || log[k] == Cleaned)
  {
    var last := |log| - 1;
    if !(log[last] == Released(id) || log[last] == Cleaned) {
      OpenSince(log[..last], id, i);
    }
  }

  // Handing over an id that is not open keeps the guarantee.
  lemma DeliverKeepsAtMostOnce(log: seq<Event>, id: U16)
    requires AtMostOnce(log) && !Open(log, id)
    ensures AtMostOnce(log + [Delivered(2, id)])
  {
    var all := log + [Delivered(2, id)];
    forall i, j | 0 <= i < j < |all| && all[i].Delivered? && all[i].qos == 2 && all[j] == all[i]
      ensures exists k :: i < k < j && (all[k] == Released(all[i].id) || all[k] == Cleaned)
    {
      if j < |log| {
        assert log[i] == all[i] && log[j] == all[j];
        var k :| i < k < j && (log[k] == Released(log[i].id) || log[k] == Cleaned);
        assert all[k] == log[k];
      } else {
        OpenSince(log, id, i);
        var k :| i < k < |log| && (log[k] == Released(id) || log[k] == Cleaned);
        assert all[k] == log[k];
      }
    }
  }

  lemma OtherKeepsAtMostOnce(log: seq<Event>, e: Event)
    requires AtMostOnce(log) && !(e.Delivered? && e.qos == 2)
    ensures AtMostOnce(log + [e])
  {
    var all := log + [e];
    forall i, j | 0 <= i < j < |all| && all[i].Delivered? && all[i].qos == 2 && all[j] == all[i]
      ensures exists k :: i < k < j && (all[k] == Released(all[i].id) || all[k] == Cleaned)
    {
      assert log[i] == all[i] && log[j] == all[j];
      var k :| i < k < j && (log[k] == Released(log[i].id) || log[k] == Cleaned);
      assert all[k] == log[k];
    }
  }

  // e has happened at or after position n.
  ghost predicate Since(log: seq<Event>, n: nat, e: Event) {
    exists k :: n <= k < |log| && log[k] == e
  }

  // The ids whose delivery is open.
  function OpenIds(log: seq<Event>): set<int> {
    set id: int | 0 < id < 0x1_0000 && Open(log, id)
  }

  // What is handed over on arrival: at QoS 2 the first arrivals, while not all slots are taken.
  predicate Deliverable(log: seq<Event>, qos: nat, id: U16) {
    qos != 2 || (id != 0 && !Open(log, id) && |OpenIds(log)| < MAX_INCOMING_QOS2)
  }

  // The last event is an arrival that is to be handed over.
  predicate Due(log: seq<Event>) {
    log != [] && var last := log[|log| - 1]; last.Arrived? && Deliverable(log[..|log| - 1], last.qos, last.id)
  }

  // What may come next: the delivery that is due and no other, and a release only after its answer.
  predicate Follows(log: seq<Event>, e: Event) {
    && (if Due(log) then var last := log[|log| - 1]; e == Delivered(last.qos, last.id) else !e.Delivered?)
    && (e.Released? ==> log != [] && log[|log| - 1] == Sent(AckBytes(PUBCOMP, 0, e.id)))
    && (e.Acked? ==> Answered(log, e.kind) && LastRead(log).value.id == e.id)
    && (e.ForeignAck? ==> Answered(log, e.kind) && LastRead(log).value.id != e.id)
  }

  // What readPacket came back with last.
  function LastRead(log: seq<Event>): Option<Incoming> {
    if log == [] then None else
      var last := log[|log| - 1];
      if last.Read? then Some(last.m) else LastRead(log[..|log| - 1])
  }

  // A well-formed packet of that kind was read last.
  predicate Answered(log: seq<Event>, kind: int) {
    LastRead(log).Some? && LastRead(log).value.kind == kind && LastRead(log).value.wellFormed
  }

  // Every acknowledgement that counts was read off the network before.
  ghost predicate AcksRead(log: seq<Event>) {
    forall k :: 0 <= k < |log| && log[k].Acked? ==> WasRead(log, k, log[k].kind, log[k].id)
  }

  ghost predicate WasRead(log: seq<Event>, k: nat, kind: int, id: U16) {
    exists j :: 0 <= j < k && j < |log| && log[j].Read? && log[j].m.wellFormed && log[j].m.kind == kind && log[j].m.id == id
  }

  lemma {:induction false} LastWasRead(log: seq<Event>)
    requires LastRead(log).Some?
    ensures exists j :: 0 <= j < |log| && log[j] == Read(LastRead(log).value)
  {
    if !log[|log| - 1].Read? {
      LastWasRead(log[..|log| - 1]);
    }
  }

  // The history is in order.
  predicate Orderly(log: seq<Event>) {
    log == [] || (Orderly(log[..|log| - 1]) && Follows(log[..|log| - 1], log[|log| - 1]))
  }

  lemma OrderlyNext(log: seq<Event>, e: Event)
    ensures (log + [e])[..|log|] == log
    ensures Orderly(log + [e]) <==> Orderly(log) && Follows(log, e)
    ensures Due(log + [e]) <==> e.Arrived? && Deliverable(log, e.qos, e.id)
  {
    assert (log + [e])[..|log|] == log;
  }

  // Events that say nothing about open QoS 2 deliveries and are neither arrival nor delivery.
  predicate Neutral(e: Event) {
    e.Read? || e.Offered? || e.Sent? || e.Acked? || e.ForeignAck? || e.Stored?
  }

  lemma AcksReadNext(log: seq<Event>, e: Event)
    requires AcksRead(log) && Follows(log, e)
    ensures AcksRead(log + [e])
  {
    var all := log + [e];
    forall k | 0 <= k < |all| && all[k].Acked?
      ensures WasRead(all, k, all[k].kind, all[k].id)
    {
      if k < |log| {
        assert WasRead(log, k, log[k].kind, log[k].id);
        var j :| 0 <= j < k && j < |log| && log[j].Read? && log[j].m.wellFormed && log[j].m.kind == log[k].kind && log[j].m.id == log[k].id;
        assert all[j] == log[j];
      } else {
        LastWasRead(log);
        var j :| 0 <= j < |log| && log[j] == Read(LastRead(log).value);
        assert all[j] == log[j];
      }
    }
  }

  /** In an orderly history QoS 2 messages are delivered at most once, every release was answered, and
      every acknowledgement that ended a publish was read off the network. */
  lemma {:induction false} OrderlyMeans(log: seq<Event>)
    requires Orderly(log)
    ensures AtMostOnce(log) && ReleasesAnswered(log) && AcksRead(log)
  {
    if log != [] {
      var before, e := log[..|log| - 1], log[|log| - 1];
      assert log == before + [e];
      OrderlyMeans(before);
      AcksReadNext(before, e);
      if e.Delivered? && e.qos == 2 {
        assert Due(before) && !Open(before, e.id);
        DeliverKeepsAtMostOnce(before, e.id);
      } else {
        OtherKeepsAtMostOnce(before, e);
      }
    }
  }

  // Every arrival that is to be handed over is handed over at once, and nothing else ever is.
  ghost predicate Prompt(log: seq<Event>) {
    forall i {:trigger log[i]} :: 0 <= i < |log| ==> PromptAt(log, i)
  }

  predicate PromptAt(log: seq<Event>, i: nat)
    requires i < |log|
  {
    match log[i]
    case Arrived(qos, id) => Deliverable(log[..i], qos, id) ==> i + 1 < |log| && log[i + 1] == Delivered(qos, id)
    case Delivered(qos, id) => i > 0 && log[i - 1] == Arrived(qos, id) && Deliverable(log[..i - 1], qos, id)
    case _ => true
  }

  /** And every first arrival is handed over at once while a slot is free. */
  lemma {:induction false} OrderlyIsPrompt(log: seq<Event>)
    requires Orderly(log) && !Due(log)
    ensures Prompt(log)
  {
    forall i | 0 <= i < |log| ensures PromptAt(log, i) {
      OrderlyPrefix(log, i);
      if i > 0 {
        assert log[..i][..i - 1] == log[..i - 1];
      }
      if log[i].Arrived? && i + 1 < |log| {
        OrderlyPrefix(log, i + 1);
        assert log[..i + 1][..i] == log[..i];
      } else {
        assert i + 1 == |log| ==> log[..|log| - 1] == log[..i];
      }
    }
  }

  lemma {:induction false} OrderlyPrefix(log: seq<Event>, i: nat)
    requires Orderly(log) && i < |log|
    ensures Orderly(log[..i]) && Follows(log[..i], log[i])
    decreases |log|
  {
    var before := log[..|log| - 1];
    if i < |log| - 1 {
      OrderlyPrefix(before, i);
      assert before[..i] == log[..i] && before[i] == log[i];
    }
  }

  lemma NeutralKeeps(log: seq<Event>, e: Event)
    requires Neutral(e) && Orderly(log) && !Due(log) && Follows(log, e)
    ensures Orderly(log + [e]) && !Due(log + [e])
    ensures LastRead(log + [e]) == if e.Read? then Some(e.m) else LastRead(log)
    ensures forall id :: Open(log + [e], id) == Open(log, id)
  {
    OrderlyNext(log, e);
  }

  // What acknowledges a publish: PUBACK at QoS 1, PUBCOMP at QoS 2.
  function AckOf(qos: nat): int {
    if qos == 1 then PUBACK else PUBCOMP
  }

  // The publish is over: acknowledged, crossed by a foreign acknowledgement, or dropped.
  predicate Ends(e: Event, f: Flight) {
    e == Acked(f.id, AckOf(f.qos)) || e == ForeignAck(f.id, AckOf(f.qos)) || e == Cleaned
  }

  // The publishes that were kept and are not over.
  function Waiting(log: seq<Event>): set<Flight> {
    if log == [] then {} else
      var last, before := log[|log| - 1], Waiting(log[..|log| - 1]);
      if last.Stored? then before + {last.flight} else set f | f in before && !Ends(last, f)
  }

  // How often the session state was dropped.
  function Drops(log: seq<Event>): nat {
    if log == [] then 0 else Drops(log[..|log| - 1]) + if log[|log| - 1].Cleaned? then 1 else 0
  }

  lemma WaitingNext(log: seq<Event>, e: Event)
    ensures Waiting(log + [e]) == if e.Stored? then Waiting(log) + {e.flight} else set f | f in Waiting(log) && !Ends(e, f)
    ensures Drops(log + [e]) == Drops(log) + if e.Cleaned? then 1 else 0
  {
    assert (log + [e])[..|log|] == log;
  }

  /** A publish that was kept is waiting, or is over since. */
  lemma {:induction false} WaitingUntilOver(log: seq<Event>, i: nat)
    requires i < |log| && log[i].Stored?
    ensures log[i].flight in Waiting(log) || exists k :: i < k < |log| && Ends(log[k], log[i].flight)
  {
    var n := |log| - 1;
    if i < n {
      WaitingUntilOver(log[..n], i);
      if log[i].flight in Waiting(log[..n]) {
        if !log[n].Stored? && log[i].flight !in Waiting(log) {
          assert Ends(log[n], log[i].flight);
        }
      } else {
        var k :| i < k < n && Ends(log[..n][k], log[i].flight);
        assert Ends(log[k], log[i].flight);
      }
    }
  }

  // All that is waiting is the publish now kept.
  predicate Retained(log: seq<Event>, now: Flight) {
    Waiting(log) == {} || (Waiting(log) == {now} && now.id != 0 && now.qos in {1, 2})
  }

  // Nothing is waiting.
  predicate Resolved(log: seq<Event>) {
    Waiting(log) == {}
  }

  // Time has passed, and the session state was dropped only if it may be.
  predicate Went(before: seq<Event>, after: seq<Event>, clean: bool) {
    before <= after && (!clean ==> Drops(after) == Drops(before))
  }

  // And no publish was kept meanwhile.
  predicate Grew(before: seq<Event>, after: seq<Event>, clean: bool) {
    Went(before, after, clean) && Waiting(after) <= Waiting(before)
  }

  // And no packet was read.
  predicate Acted(before: seq<Event>, after: seq<Event>) {
    Grew(before, after, false) && LastRead(after) == LastRead(before)
  }

  // What handing a packet to the network adds.
  function Attempt(packet: seq<Byte>, ok: bool): seq<Event> {
    if ok then [Offered(packet), Sent(packet)] else [Offered(packet)]
  }

  // One event that keeps nothing.
  lemma GrewOne(log: seq<Event>, e: Event, now: Flight)
    requires !e.Stored?
    ensures Grew(log, log + [e], e.Cleaned?)
    ensures Retained(log, now) ==> Retained(log + [e], now)
    ensures Retained(log, now) && Ends(e, now) ==> Resolved(log + [e])
  {
    WaitingNext(log, e);
    if Retained(log, now) {
      assert Waiting(log + [e]) <= {now};
    }
  }

  // How often a packet went out.
  function Sends(log: seq<Event>, packet: seq<Byte>): nat {
    if log == [] then 0 else
      Sends(log[..|log| - 1], packet) + if log[|log| - 1] == Sent(packet) then 1 else 0
  }

  lemma {:induction false} SendsGrow(log: seq<Event>, log': seq<Event>, packet: seq<Byte>)
    requires log <= log'
    ensures Sends(log', packet) >= Sends(log, packet)
    ensures Since(log', |log|, Sent(packet)) ==> Sends(log', packet) > Sends(log, packet)
    decreases |log'|
  {
    if |log| < |log'| {
      var before := log'[..|log'| - 1];
      SendsGrow(log, before, packet);
      if Since(log', |log|, Sent(packet)) && log'[|log'| - 1] != Sent(packet) {
        var k :| |log| <= k < |log'| && log'[k] == Sent(packet);
        assert before[k] == Sent(packet);
      }
    } else {
      assert log' == log;
    }
  }

  // The table holds exactly the ids whose delivery is still open, each once.
  ghost predicate Tracks(table: seq<U16>, log: seq<Event>) {
    && (forall id: U16 :: id != 0 ==> (id in table <==> Open(log, id)))
    && (forall i, j :: 0 <= i < j < |table| && table[i] != 0 ==> table[i] != table[j])
  }

  lemma TookId(table: seq<U16>, log: seq<Event>, i: nat, id: U16)
    requires Tracks(table, log) && i < |table| && table[i] == 0 && id != 0 && id !in table
    ensures Tracks(table[i := id], log + [Delivered(2, id)])
  {
    var table', log' := table[i := id], log + [Delivered(2, id)];
    assert log'[..|log|] == log;
    forall other: U16 | other != 0
      ensures other in table' <==> Open(log', other)
    {
      if other == id {
        assert table'[i] == id;
      } else if other in table {
        var k :| 0 <= k < |table| && table[k] == other;
        assert table'[k] == other;
      }
    }
  }

  lemma FreedId(table: seq<U16>, log: seq<Event>, table': seq<U16>, id: U16)
    requires Tracks(table, log)
    requires if id in table then exists i :: 0 <= i < |table| && table[i] == id && table' == table[i := 0]
             else table' == table
    ensures Tracks(table', log + [Released(id)])
  {
    var log' := log + [Released(id)];
    assert log'[..|log|] == log;
    forall other: U16 | other != 0
      ensures other in table' <==> Open(log', other)
    {
      if other != id && other in table {
        var k :| 0 <= k < |table| && table[k] == other;
        assert table'[k] == other;
      }
    }
  }

  // The ids in a table.
  function Ids(table: seq<U16>): set<int> {
    if table == [] then {} else (if table[0] != 0 then {table[0]} else {}) + Ids(table[1..])
  }

  lemma {:induction false} IdsAre(table: seq<U16>)
    ensures forall id :: id in Ids(table) <==> id != 0 && id in table
    ensures |Ids(table)| <= |table|
    ensures (forall i, j :: 0 <= i < j < |table| && table[i] != 0 ==> table[i] != table[j]) ==>
      (|Ids(table)| == |table| <==> 0 !in table)
  {
    if table != [] {
      IdsAre(table[1..]);
      var rest := Ids(table[1..]);
      assert table == [table[0]] + table[1..];
      if forall i, j :: 0 <= i < j < |table| && table[i] != 0 ==> table[i] != table[j] {
        forall i, j | 0 <= i < j < |table[1..]| && table[1..][i] != 0
          ensures table[1..][i] != table[1..][j]
        {
          assert table[i + 1] != table[j + 1];
        }
        assert table[0] != 0 ==> table[0] !in table[1..];
      }
    }
  }

  // A slot is free exactly while fewer ids are open than there are slots.
  lemma FreeSlot(table: seq<U16>, log: seq<Event>)
    requires Tracks(table, log) && |table| == MAX_INCOMING_QOS2
    ensures 0 in table <==> |OpenIds(log)| < MAX_INCOMING_QOS2
  {
    IdsAre(table);
    assert Ids(table) == OpenIds(log);
  }

  // Time left on a timer; every look at it costs some.
  class Timer {
    var left: nat
    ghost var over: bool // the last look found the time was up

    constructor (ticks: nat)
      ensures left == ticks && !over
    {
      left, over := ticks, false;
    }

    method Expired() returns (e: bool)
      modifies this
      ensures left <= old(left) && over == e
      ensures !e ==> left < old(left)
    {
      e := *;
      if left == 0 {
        e := true;
      } else {
        left := left - 1;
      }
      over := e;
    }
  }

  // The PUBLISH packet of the client's own messages.
  function Message(topic: seq<Byte>, payload: seq<Byte>, id: U16, qos: nat, retained: bool): MqttPublish.Publish {
    MqttPublish.Publish(0, qos, if retained then 1 else 0, id, topic, payload)
  }

  // What readPacket left in readbuf, and its return code.
  datatype Incoming = Incoming(kind: int, wellFormed: bool, qos: nat, id: U16, code: Byte)

  // Whether an incoming PUBLISH is handed over, given the ids already held.
  predicate Admitted(m: Incoming, table: seq<U16>) {
    m.qos != 2 || (m.id != 0 && m.id !in table && 0 in table)
  }

  lemma SinceGrows(log: seq<Event>, log': seq<Event>, n: nat, e: Event)
    requires log <= log' && Since(log, n, e)
    ensures Since(log', n, e)
  {
    var k :| n <= k < |log| && log[k] == e;
    assert log'[k] == e;
  }

  // What happened since some time happened since an earlier one, and still has later.
  lemma SinceBetween(log: seq<Event>, n: nat, log': seq<Event>, m: nat, e: Event)
    requires log <= log' && m <= n
    ensures Since(log, n, e) ==> Since(log', m, e)
  {
    if Since(log, n, e) {
      var k :| n <= k < |log| && log[k] == e;
      assert log'[k] == e;
    }
  }

  lemma SinceStays(log: seq<Event>, log': seq<Event>, n: nat, e: Event)
    requires log <= log'
    ensures Since(log, n, e) ==> Since(log', n, e)
  {
    if Since(log, n, e) {
      SinceGrows(log, log', n, e);
    }
  }

  // The log after an arrival.
  function AfterArrival(log: seq<Event>, m: Incoming, handed: bool): seq<Event> {
    log + [Arrived(m.qos, m.id)] + if handed then [Delivered(m.qos, m.id)] else []
  }

  // An arrival, handed over exactly when admitted, keeps history and table in order.
  lemma HandedOver(was: seq<U16>, log: seq<Event>, m: Incoming, now: seq<U16>)
    requires Orderly(log) && !Due(log) && Tracks(was, log) && |was| == MAX_INCOMING_QOS2
    requires if Admitted(m, was) && m.qos == 2 then exists i :: 0 <= i < |was| && was[i] == 0 && now == was[i := m.id]
             else now == was
    ensures Admitted(m, was) <==> Deliverable(log, m.qos, m.id)
    ensures var log' := AfterArrival(log, m, Admitted(m, was));
      Orderly(log') && !Due(log') && Tracks(now, log') && Acted(log, log')
  {
    FreeSlot(was, log);
    ArrivalOrderly(log, m);
    ArrivalTracked(was, log, m, now);
    ArrivalGrew(log, m, Admitted(m, was));
  }

  lemma ArrivalOrderly(log: seq<Event>, m: Incoming)
    requires Orderly(log) && !Due(log)
    ensures var log' := AfterArrival(log, m, Deliverable(log, m.qos, m.id)); Orderly(log') && !Due(log')
  {
    var arrival, delivery := Arrived(m.qos, m.id), Delivered(m.qos, m.id);
    OrderlyNext(log, arrival);
    if Deliverable(log, m.qos, m.id) {
      OrderlyNext(log + [arrival], delivery);
    } else {
      assert AfterArrival(log, m, false) == log + [arrival];
    }
  }

  lemma ArrivalTracked(was: seq<U16>, log: seq<Event>, m: Incoming, now: seq<U16>)
    requires Tracks(was, log)
    requires if Admitted(m, was) && m.qos == 2 then exists i :: 0 <= i < |was| && was[i] == 0 && now == was[i := m.id]
             else now == was
    ensures Tracks(now, AfterArrival(log, m, Admitted(m, was)))
  {
    var mid := log + [Arrived(m.qos, m.id)];
    assert mid[..|log|] == log;
    if Admitted(m, was) {
      if m.qos == 2 {
        var i :| 0 <= i < |was| && was[i] == 0 && now == was[i := m.id];
        TookId(was, mid, i, m.id);
      } else {
        assert (mid + [Delivered(m.qos, m.id)])[..|mid|] == mid;
      }
    } else {
      assert AfterArrival(log, m, false) == mid;
    }
  }

  lemma ArrivalGrew(log: seq<Event>, m: Incoming, handed: bool)
    ensures Acted(log, AfterArrival(log, m, handed))
  {
    var mid := log + [Arrived(m.qos, m.id)];
    ActedOne(log, Arrived(m.qos, m.id));
    if handed {
      ActedOne(mid, Delivered(m.qos, m.id));
    } else {
      assert AfterArrival(log, m, handed) == mid;
    }
  }

  lemma ActedOne(log: seq<Event>, e: Event)
    requires !e.Stored? && !e.Cleaned? && !e.Read?
    ensures Acted(log, log + [e])
  {
    WaitingNext(log, e);
    assert (log + [e])[..|log|] == log;
  }

  class Client {
    const table: array<U16>     // incomingQoS2messages
    const sendbuf: array<Byte>
    const pubbuf: array<Byte>
    var readbuf: Incoming
    var isConnected: bool
    var cleanSession: bool
    var pingOutstanding: bool
    var keepAliveInterval: nat
    var inflightId: U16
    var inflightLen: nat
    var inflightQos: nat
    var nextId: nat
    ghost var log: seq<Event>

    constructor (size: nat)
      ensures Valid() && Settled() && fresh(table) && fresh(sendbuf) && fresh(pubbuf)
      ensures !isConnected && inflightId == 0 && log == [Cleaned] && cleanSession && !pingOutstanding && nextId == 0
    {
      table := new U16[MAX_INCOMING_QOS2](_ => 0);
      sendbuf := new Byte[size];
      pubbuf := new Byte[size];
      readbuf := Incoming(0, false, 0, 0, 0);
      isConnected, cleanSession, pingOutstanding, keepAliveInterval := false, true, false, 0;
      inflightId, inflightLen, inflightQos, nextId := 0, 0, 0, 0;
      log := [Cleaned];
    }

    // Between calls, while connected, every publish that was kept is over.
    ghost predicate Settled()
      reads this
    {
      isConnected ==> Resolved(log)
    }

    ghost predicate Shape()
      reads this
    {
      && table.Length == MAX_INCOMING_QOS2
      && sendbuf.Length == pubbuf.Length && sendbuf != pubbuf
      && table as object != sendbuf && table as object != pubbuf
      && nextId <= MAX_PACKET_ID
      && (inflightId != 0 ==> inflightLen <= pubbuf.Length)
    }

    // Every reachable state: the history is in order, the table keeps track of it, and what was
    // kept is kept.
    ghost predicate Valid()
      reads this, table, pubbuf
    {
      && Shape()
      && Orderly(log) && !Due(log)
      && Tracks(table[..], log)
      && Retained(log, InFlight())
    }

    ghost function InFlight(): Flight
      requires Shape()
      reads this, pubbuf
    {
      Flight(inflightId, inflightQos, if inflightId != 0 then pubbuf[..inflightLen] else [])
    }

    // Only time has passed: the session is no more connected than before, and nothing was kept.
    twostate predicate Kept()
      reads this
    {
      && Grew(old(log), log, cleanSession)
      && cleanSession == old(cleanSession) && keepAliveInterval == old(keepAliveInterval)
      && nextId == old(nextId) && (isConnected ==> old(isConnected))
      && inflightId in {old(inflightId), 0}
    }

    ghost method Record(e: Event)
      requires Valid() && Neutral(e) && !e.Stored? && Follows(log, e)
      modifies this`log
      ensures Valid() && log == old(log) + [e] && Grew(old(log), log, false)
      ensures LastRead(log) == if e.Read? then Some(e.m) else LastRead(old(log))
      ensures Ends(e, InFlight()) ==> Resolved(log)
    {
      NeutralKeeps(log, e);
      GrewOne(log, e, InFlight());
      log := log + [e];
    }

    method IsQoS2MsgIdFree(id: U16) returns (free: bool)
      requires Shape()
      ensures free <==> id !in table[..]
    {
      for i := 0 to MAX_INCOMING_QOS2
        invariant id !in table[..i]
      {
        if table[i] == id {
          return false;
        }
      }
      free := true;
    }

    // The first free slot takes the id.
    method UseQoS2MsgId(id: U16) returns (used: bool)
      requires Shape()
      modifies table
      ensures used <==> 0 in old(table[..])
      ensures !used ==> table[..] == old(table[..])
      ensures used ==> exists i :: 0 <= i < table.Length && old(table[i]) == 0 && table[..] == old(table[..])[i := id]
    {
      for i := 0 to MAX_INCOMING_QOS2
        invariant 0 !in table[..i] && table[..] == old(table[..])
      {
        if table[i] == 0 {
          table[i] := id;
          assert table[..] == old(table[..])[i := id];
          return true;
        }
      }
      used := false;
    }

    method FreeQoS2MsgId(id: U16)
      requires Shape()
      modifies table
      ensures id !in old(table[..]) ==> table[..] == old(table[..])
      ensures id in old(table[..]) ==>
        exists i :: 0 <= i < table.Length && old(table[i]) == id && table[..] == old(table[..])[i := 0]
    {
      for i := 0 to MAX_INCOMING_QOS2
        invariant id !in table[..i] && table[..] == old(table[..])
      {
        if table[i] == id {
          table[i] := 0;
          assert table[..] == old(table[..])[i := 0];
          return;
        }
      }
    }

    // No id is held any more.
    method ClearTable()
      requires Shape()
      modifies table
      ensures forall i :: 0 <= i < table.Length ==> table[i] == 0
    {
      for i := 0 to MAX_INCOMING_QOS2
        invariant forall j :: 0 <= j < i ==> table[j] == 0
      {
        table[i] := 0;
      }
    }

    method DropSession()
      requires Valid()
      modifies this`inflightId, this`inflightQos, this`log, table
      ensures Valid() && log == old(log) + [Cleaned] && Grew(old(log), log, true)
      ensures LastRead(log) == LastRead(old(log))
      ensures inflightId == 0 && inflightQos == 0 && forall i :: 0 <= i < table.Length ==> table[i] == 0
    {
      OrderlyNext(log, Cleaned);
      GrewOne(log, Cleaned, InFlight());
      inflightId, inflightQos := 0, 0;
      ClearTable();
      log := log + [Cleaned];
    }

    method CloseSession()
      requires Valid()
      modifies this`pingOutstanding, this`isConnected, this`inflightId, this`inflightQos, this`log, table
      ensures Valid() && !isConnected && !pingOutstanding && Kept() && LastRead(log) == LastRead(old(log))
      ensures if cleanSession then log == old(log) + [Cleaned] && inflightId == 0
              else log == old(log) && inflightId == old(inflightId) && inflightQos == old(inflightQos)
                   && table[..] == old(table[..])
    {
      pingOutstanding := false;
      isConnected := false;
      if cleanSession {
        DropSession();
        assert Grew(old(log), log, true);
      }
    }

    // One attempt to write: any part of what is offered goes out, or an error is reported.
    method Write(from: nat, count: nat, ghost wire: seq<Byte>) returns (rc: int, ghost wire': seq<Byte>)
      requires from + count <= sendbuf.Length
      ensures -1 <= rc <= count && wire' == if rc < 0 then wire else wire + sendbuf[from..from + rc]
    {
      rc :| -1 <= rc <= count;
      wire' := if rc < 0 then wire else wire + sendbuf[from..from + rc];
    }

    // The loop of sendPacket: writes what is left, until all is out, an error or the time is up.
    method WriteAll(length: nat, timer: Timer) returns (sent: nat, ghost wire: seq<Byte>, ghost broken: bool)
      requires length <= sendbuf.Length
      modifies timer
      ensures sent <= length && wire == sendbuf[..sent] && timer.left <= old(timer.left)
      ensures sent < length ==> broken || timer.over
    {
      sent, wire, broken := 0, [], false;
      while sent < length
        invariant sent <= length && wire == sendbuf[..sent] && timer.left <= old(timer.left)
        decreases timer.left, length - sent
      {
        var rc;
        rc, wire := Write(sent, length - sent, wire);
        if rc < 0 {
          broken := true;
          break;
        }
        sent := sent + rc;
        var expired := timer.Expired();
        if expired {
          break;
        }
      }
    }

    // sendPacket: success means that exactly the packet went out, in order.
    method SendPacket(length: nat, timer: Timer) returns (rc: int, ghost wire: seq<Byte>)
      requires Valid() && length <= sendbuf.Length
      modifies timer, this`log
      ensures Valid() && timer.left <= old(timer.left)
      ensures Acted(old(log), log)
      ensures rc == SUCCESS || rc == FAILURE
      ensures wire <= sendbuf[..length] && (rc == SUCCESS <==> wire == sendbuf[..length])
      ensures log == old(log) + Attempt(sendbuf[..length], rc == SUCCESS)
    {
      var sent;
      ghost var broken;
      Record(Offered(sendbuf[..length]));
      sent, wire, broken := WriteAll(length, timer);
      if sent == length {
        rc := SUCCESS;
        Record(Sent(sendbuf[..length]));
      } else {
        rc := FAILURE;
      }
    }

    // The ack for id is built in sendbuf and sent; FAILURE covers both ways to fail.
    method SendAck(kind: nat, id: U16, timer: Timer) returns (rc: int)
      requires Valid()
      modifies timer, sendbuf, this`log
      ensures Valid() && timer.left <= old(timer.left)
      ensures Acted(old(log), log)
      ensures rc == SUCCESS || rc == FAILURE
      ensures sendbuf.Length < 4 ==> rc == FAILURE && log == old(log)
      ensures sendbuf.Length >= 4 ==> log == old(log) + Attempt(AckBytes(kind, 0, id), rc == SUCCESS)
    {
      var len := SerializeAck(sendbuf, kind, 0, id);
      if len <= 0 {
        return FAILURE;
      }
      AtSlice(sendbuf[..], 0, AckBytes(kind, 0, id));
      assert sendbuf[..len] == AckBytes(kind, 0, id);
      ghost var wire;
      rc, wire := SendPacket(len, timer);
    }

    // A message at QoS 2 is handed over exactly when its id is not in the table and a slot is
    // free; all others are always handed over.
    method HandOver(m: Incoming)
      requires Valid()
      modifies table, this`log
      ensures Valid()
      ensures Acted(old(log), log)
      ensures log == AfterArrival(old(log), m, Admitted(m, old(table[..])))
      ensures Admitted(m, old(table[..])) <==> Deliverable(old(log), m.qos, m.id)
      ensures m.qos != 2 ==> log == old(log) + [Arrived(m.qos, m.id)] + [Delivered(m.qos, m.id)]
      ensures m.qos == 2 && m.id != 0 && m.id !in old(table[..]) && 0 in old(table[..]) ==>
        log == old(log) + [Arrived(2, m.id)] + [Delivered(2, m.id)]
      ensures m.qos == 2 && (m.id == 0 || m.id in old(table[..]) || 0 !in old(table[..])) ==>
        log == old(log) + [Arrived(2, m.id)] + []
    {
      ghost var was := table[..];
      if m.qos == 2 {
        var free := IsQoS2MsgIdFree(m.id);
        if free {
          var used := UseQoS2MsgId(m.id);
        }
      }
      HandedOver(was, log, m, table[..]);
      log := AfterArrival(log, m, Admitted(m, was));
    }

    // The PUBLISH branch of cycle: hand over, then acknowledge.
    method HandlePublish(timer: Timer) returns (rc: int, early: bool)
      requires Valid()
      modifies timer, sendbuf, table, this`log
      ensures Valid() && timer.left <= old(timer.left)
      ensures Acted(old(log), log)
      ensures rc == if early && readbuf.wellFormed then FAILURE else SUCCESS
      ensures !readbuf.wellFormed ==> early && log == old(log)
      ensures readbuf.wellFormed ==>
        var m := readbuf;
        var answer := if m.qos == 0 || m.qos > 2 || sendbuf.Length < 4 then []
                      else Attempt(AckBytes(if m.qos == 1 then PUBACK else PUBREC, 0, m.id), !early);
        log == AfterArrival(old(log), m, Admitted(m, old(table[..]))) + answer
    {
      var m := readbuf;
      rc, early := SUCCESS, false;
      if !m.wellFormed {
        return SUCCESS, true;
      }
      HandOver(m);
      if m.qos != 0 {
        if m.qos == 1 {
          rc := SendAck(PUBACK, m.id, timer);
        } else if m.qos == 2 {
          rc := SendAck(PUBREC, m.id, timer);
        } else {
          rc := FAILURE;
        }
        early := rc == FAILURE;
      }
    }

    // The id of an answered PUBREL is free again.
    method Release(id: U16)
      requires Valid() && log != [] && log[|log| - 1] == Sent(AckBytes(PUBCOMP, 0, id))
      modifies table, this`log
      ensures Valid() && log == old(log) + [Released(id)] && Acted(old(log), log)
      ensures id == 0 || id !in table[..]
    {
      ghost var was := table[..];
      FreeQoS2MsgId(id);
      FreedId(was, log, table[..], id);
      OrderlyNext(log, Released(id));
      GrewOne(log, Released(id), InFlight());
      log := log + [Released(id)];
    }

    // The PUBREC and PUBREL branch, told apart here at once: PUBREL frees its id only after the PUBCOMP went out.
    method HandleRelease(kind: int, timer: Timer) returns (rc: int, early: bool)
      requires Valid() && (kind == PUBREC || kind == PUBREL)
      modifies timer, sendbuf, table, this`log
      ensures Valid() && timer.left <= old(timer.left)
      ensures Acted(old(log), log)
      ensures rc == if early then FAILURE else SUCCESS
      ensures !readbuf.wellFormed || sendbuf.Length < 4 ==> early && log == old(log)
      ensures readbuf.wellFormed && sendbuf.Length >= 4 ==>
        log == old(log) + Attempt(AckBytes(if kind == PUBREC then PUBREL else PUBCOMP, 0, readbuf.id), !early)
                        + if kind == PUBREL && !early then [Released(readbuf.id)] else []
      ensures kind == PUBREL && !early ==> readbuf.id == 0 || readbuf.id !in table[..]
      ensures early ==> table[..] == old(table[..])
    {
      if !readbuf.wellFormed {
        return FAILURE, true;
      }
      if kind == PUBREC {
        rc := SendAck(PUBREL, readbuf.id, timer);
        return rc, rc == FAILURE;
      }
      rc := SendAck(PUBCOMP, readbuf.id, timer);
      early := rc == FAILURE;
      if !early {
        Release(readbuf.id);
      }
    }

    // The ping of keepalive, when a timer says it is due: a second one without an answer is a failure.
    method KeepAlive(due: bool) returns (rc: int)
      requires Valid()
      modifies sendbuf, this`pingOutstanding, this`log
      ensures Valid() && Acted(old(log), log)
      ensures rc == SUCCESS || rc == FAILURE
      ensures keepAliveInterval == 0 || !due ==> rc == SUCCESS && log == old(log) && pingOutstanding == old(pingOutstanding)
      ensures keepAliveInterval != 0 && due && old(pingOutstanding) ==> rc == FAILURE && log == old(log) && pingOutstanding
      ensures keepAliveInterval != 0 && due && !old(pingOutstanding) && sendbuf.Length >= 2 ==>
        log == old(log) + Attempt(Packet(Header(PINGREQ, 0, 0, 0), []), rc == SUCCESS) && pingOutstanding == (rc == SUCCESS)
    {
      rc := SUCCESS;
      if keepAliveInterval == 0 {
        return;
      }
      if pingOutstanding {
        if due {
          rc := FAILURE;
        }
      } else if due {
        var own := new Timer(1000);
        var tried;
        tried, rc := SendEmpty(PINGREQ, own);
        if !tried {
          rc := SUCCESS;
        }
        pingOutstanding := tried && rc == SUCCESS;
      }
    }

    // A packet without a body, if the buffer has room for it.
    method SendEmpty(kind: nat, timer: Timer) returns (tried: bool, rc: int)
      requires Valid()
      modifies timer, sendbuf, this`log
      ensures Valid() && Acted(old(log), log) && tried == (sendbuf.Length >= 2)
      ensures rc == SUCCESS || rc == FAILURE
      ensures if tried then log == old(log) + Attempt(Packet(Header(kind, 0, 0, 0), []), rc == SUCCESS)
              else rc == FAILURE && log == old(log)
    {
      ghost var packet := Packet(Header(kind, 0, 0, 0), []);
      var len := SerializeZero(sendbuf, kind);
      tried, rc := len > 0, FAILURE;
      if tried {
        AtSlice(sendbuf[..], 0, packet);
        assert sendbuf[..len] == packet;
        ghost var wire;
        rc, wire := SendPacket(len, timer);
      }
    }

    // readPacket: anything may arrive.
    method ReadPacket(timer: Timer) returns (kind: int)
      requires Valid()
      modifies this`readbuf, this`log
      ensures Valid() && kind == readbuf.kind && log == old(log) + [Read(readbuf)] && Grew(old(log), log, false)
      ensures LastRead(log) == Some(readbuf)
    {
      var m: Incoming := *;
      readbuf := m;
      kind := m.kind;
      Record(Read(m));
    }

    // The switch of cycle.
    method Dispatch(kind: int, timer: Timer) returns (rc: int, early: bool)
      requires Valid()
      modifies timer, sendbuf, table, this`log, this`pingOutstanding
      ensures Valid() && timer.left <= old(timer.left) && Acted(old(log), log)
      ensures rc > 0 ==> rc == kind
      ensures kind == PUBLISH && readbuf.wellFormed ==> Since(log, |old(log)|, Arrived(readbuf.qos, readbuf.id))
      ensures kind == PUBREL ==> if early then rc == FAILURE else Since(log, |old(log)|, Released(readbuf.id))
      ensures kind == PUBREC && sendbuf.Length >= 4 && readbuf.wellFormed ==>
        log == old(log) + Attempt(AckBytes(PUBREL, 0, readbuf.id), !early) && rc == (if early then FAILURE else SUCCESS)
      ensures pingOutstanding == (old(pingOutstanding) && kind != PINGRESP)
      ensures kind in {0, CONNACK, PUBACK, SUBACK, UNSUBACK, PUBCOMP, PINGRESP} ==> rc == SUCCESS && !early && log == old(log)
      ensures kind !in {0, CONNACK, PUBLISH, PUBACK, PUBREC, PUBREL, PUBCOMP, SUBACK, UNSUBACK, PINGRESP} ==> rc == kind && early
    {
      rc, early := SUCCESS, false;
      if kind == PUBLISH {
        rc, early := HandlePublish(timer);
        assert readbuf.wellFormed ==> log[|old(log)|] == Arrived(readbuf.qos, readbuf.id);
      } else if kind == PUBREC || kind == PUBREL {
        rc, early := HandleRelease(kind, timer);
        assert kind == PUBREL && !early ==> log[|log| - 1] == Released(readbuf.id);
        assert kind == PUBREC ==> log + [] == log;
      } else if kind == PINGRESP {
        pingOutstanding := false;
      } else if kind !in {0, CONNACK, PUBACK, SUBACK, UNSUBACK, PUBCOMP} {
        rc, early := kind, true;
      }
    }

    // What one received packet causes, up to the end of the keep-alive check; `due` says whether a
    // timer of keepalive has run out.
    method Work(kind: int, due: bool, timer: Timer) returns (rc: int)
      requires Valid() && kind == readbuf.kind
      modifies timer, sendbuf, table, this`log, this`pingOutstanding
      ensures Valid() && timer.left <= old(timer.left) && Acted(old(log), log)
      ensures rc > 0 ==> rc == kind
      ensures kind == PUBLISH && readbuf.wellFormed ==> Since(log, |old(log)|, Arrived(readbuf.qos, readbuf.id))
      ensures kind == PUBREL && rc >= 0 ==> Since(log, |old(log)|, Released(readbuf.id))
      ensures kind == PUBREC && readbuf.wellFormed && sendbuf.Length >= 4 ==>
        Since(log, |old(log)|, Offered(AckBytes(PUBREL, 0, readbuf.id)))
      ensures rc == SUCCESS ==> kind in {0, CONNACK, PUBLISH, PUBACK, PUBREC, PUBREL, PUBCOMP, SUBACK, UNSUBACK, PINGRESP}
      ensures kind in {0, CONNACK, PUBACK, PUBCOMP, SUBACK, UNSUBACK} && keepAliveInterval != 0 && due ==>
        if old(pingOutstanding) then rc == FAILURE && log == old(log)
        else sendbuf.Length >= 2 ==> log == old(log) + Attempt(Packet(Header(PINGREQ, 0, 0, 0), []), rc == SUCCESS)
      ensures kind == PINGRESP && keepAliveInterval != 0 && due && sendbuf.Length >= 2 ==>
        log == old(log) + Attempt(Packet(Header(PINGREQ, 0, 0, 0), []), rc == SUCCESS)
    {
      var early;
      rc, early := Dispatch(kind, timer);
      ghost var mid := log;
      assert kind == PUBREC && readbuf.wellFormed && sendbuf.Length >= 4 ==>
        mid[|old(log)|] == Offered(AckBytes(PUBREL, 0, readbuf.id));
      SinceStays(mid, log, |old(log)|, Offered(AckBytes(PUBREL, 0, readbuf.id)));
      if !early {
        var alive := KeepAlive(due);
        if alive != SUCCESS {
          rc := FAILURE;
        }
      }
      SinceStays(mid, log, |old(log)|, Arrived(readbuf.qos, readbuf.id));
      SinceStays(mid, log, |old(log)|, Released(readbuf.id));
    }

    // One packet off the wire and one pass through.
    method Cycle(timer: Timer) returns (rc: int)
      requires Valid()
      modifies timer, sendbuf, table, this`readbuf, this`log, this`pingOutstanding,
               this`isConnected, this`inflightId, this`inflightQos
      ensures Valid() && timer.left <= old(timer.left) && Kept()
      ensures !old(isConnected) || !cleanSession ==> InFlight() == old(InFlight())
      ensures rc > 0 ==> rc == readbuf.kind
      // Every arrival is logged, and with it, because the log is prompt, its delivery if it is due.
      ensures readbuf.kind == PUBLISH && readbuf.wellFormed ==> Since(log, |old(log)|, Arrived(readbuf.qos, readbuf.id))
      ensures rc == PUBREL ==> Since(log, |old(log)|, Released(readbuf.id))
      ensures readbuf.kind == PUBREC && readbuf.wellFormed && sendbuf.Length >= 4 ==>
        Since(log, |old(log)|, Offered(AckBytes(PUBREL, 0, readbuf.id)))
      ensures |log| > |old(log)| && log[|old(log)|] == Read(readbuf) && LastRead(log) == Some(readbuf)
      ensures rc < 0 ==> !isConnected
    {
      rc := Take(timer);
      ghost var mid := log;
      rc := Conclude(readbuf.kind, rc);
      SinceStays(mid, log, |old(log)|, Offered(AckBytes(PUBREL, 0, readbuf.id)));
      SinceStays(mid, log, |old(log)|, Arrived(readbuf.qos, readbuf.id));
      SinceStays(mid, log, |old(log)|, Released(readbuf.id));
    }

    // The packet is read and worked on.
    method Take(timer: Timer) returns (rc: int)
      requires Valid()
      modifies timer, sendbuf, table, this`readbuf, this`log, this`pingOutstanding
      ensures Valid() && timer.left <= old(timer.left) && Grew(old(log), log, false)
      ensures |log| > |old(log)| && log[|old(log)|] == Read(readbuf) && LastRead(log) == Some(readbuf)
      ensures rc > 0 ==> rc == readbuf.kind
      ensures readbuf.kind == PUBLISH && readbuf.wellFormed ==> Since(log, |old(log)|, Arrived(readbuf.qos, readbuf.id))
      ensures readbuf.kind == PUBREL && rc >= 0 ==> Since(log, |old(log)|, Released(readbuf.id))
      ensures readbuf.kind == PUBREC && readbuf.wellFormed && sendbuf.Length >= 4 ==>
        Since(log, |old(log)|, Offered(AckBytes(PUBREL, 0, readbuf.id)))
      ensures rc == SUCCESS ==>
        readbuf.kind in {0, CONNACK, PUBLISH, PUBACK, PUBREC, PUBREL, PUBCOMP, SUBACK, UNSUBACK, PINGRESP}
    {
      var kind := ReadPacket(timer);
      ghost var n := |log|;
      var due: bool := *;
      rc := Work(kind, due, timer);
      SinceBetween(log, n, log, |old(log)|, Offered(AckBytes(PUBREL, 0, readbuf.id)));
      SinceBetween(log, n, log, |old(log)|, Arrived(readbuf.qos, readbuf.id));
      SinceBetween(log, n, log, |old(log)|, Released(readbuf.id));
    }

    // The exit of cycle: a failure closes the session.
    method Conclude(kind: int, rc0: int) returns (rc: int)
      requires Valid()
      modifies table, this`log, this`pingOutstanding, this`isConnected, this`inflightId, this`inflightQos
      ensures Valid() && Kept()
      ensures rc == if rc0 == SUCCESS then kind else rc0
      ensures rc0 != SUCCESS ==> !isConnected
      ensures old(log) <= log && LastRead(log) == LastRead(old(log))
      ensures rc0 == SUCCESS || !old(isConnected) || !cleanSession ==> InFlight() == old(InFlight()) && log == old(log)
    {
      rc := rc0;
      if rc == SUCCESS {
        rc := kind;
      } else if isConnected {
        CloseSession();
      }
    }

    method WaitFor(packetType: int, timer: Timer) returns (rc: int)
      requires Valid()
      modifies timer, sendbuf, table, this`readbuf, this`log, this`pingOutstanding,
               this`isConnected, this`inflightId, this`inflightQos
      ensures Valid() && Kept()
      ensures !old(isConnected) || !cleanSession ==> InFlight() == old(InFlight())
      ensures rc > 0 ==> rc == readbuf.kind && LastRead(log) == Some(readbuf)
      // It ends only when the time is up or something was read.
      ensures timer.over || |log| > |old(log)|
      ensures rc > 0 ==> |log| > |old(log)|
      ensures rc != packetType && !timer.over ==> rc < 0 && !isConnected
    {
      rc := FAILURE;
      var more := true;
      while more
        invariant Valid() && Kept() && (rc > 0 ==> rc == readbuf.kind && LastRead(log) == Some(readbuf))
        invariant !more && rc != packetType ==> rc < 0 && !isConnected
        invariant !more || rc > 0 ==> |log| > |old(log)|
        invariant !old(isConnected) || !cleanSession ==> InFlight() == old(InFlight())
        decreases timer.left, more
      {
        var expired := timer.Expired();
        if expired {
          break;
        }
        rc := Cycle(timer);
        more := rc != packetType && rc >= 0;
      }
    }

    // Wait for the acknowledgement of the given kind; the kept publish is done exactly when
    // the acknowledged identifier is its own.
    method AwaitAck(kind: int, timer: Timer) returns (rc: int)
      requires Valid() && (kind == PUBACK || kind == PUBCOMP)
      requires Resolved(log) || kind == AckOf(inflightQos)
      modifies timer, sendbuf, table, this`readbuf, this`log, this`pingOutstanding,
               this`isConnected, this`inflightId, this`inflightQos
      ensures Valid() && Kept()
      ensures rc == SUCCESS || rc == FAILURE
      ensures rc == SUCCESS ==> Resolved(log) && readbuf.kind == kind && readbuf.wellFormed
      ensures rc == SUCCESS && inflightId != 0 ==>
        inflightId != readbuf.id && Since(log, |old(log)|, ForeignAck(inflightId, kind))
      ensures rc == FAILURE ==> timer.over || |log| > |old(log)|
    {
      ghost var before := InFlight();
      var got := WaitFor(kind, timer);
      if got != kind || !readbuf.wellFormed {
        return FAILURE;
      }
      assert Resolved(log) || InFlight() == before;
      ghost var mid := log;
      Conclusion(kind);
      assert inflightId != 0 ==> log[|mid|] == ForeignAck(inflightId, kind);
      rc := SUCCESS;
    }

    // The acknowledgement just read ends the kept publish, by its own identifier or another.
    method Conclusion(kind: int)
      requires Valid() && LastRead(log) == Some(readbuf) && readbuf.kind == kind && readbuf.wellFormed
      requires Resolved(log) || kind == AckOf(inflightQos)
      modifies this`log, this`inflightId
      ensures Valid() && Resolved(log) && Grew(old(log), log, false) && LastRead(log) == Some(readbuf)
      ensures inflightId == if old(inflightId) == readbuf.id then 0 else old(inflightId)
      ensures log == old(log) +
        if old(inflightId) == readbuf.id then [Acked(readbuf.id, kind)]
        else if old(inflightId) != 0 then [ForeignAck(old(inflightId), kind)]
        else []
    {
      if inflightId == readbuf.id {
        Record(Acked(readbuf.id, kind));
        inflightId := 0;
      } else if inflightId != 0 {
        Record(ForeignAck(inflightId, kind));
      } else {
        assert log + [] == log;
      }
    }

    // Send what is in sendbuf and wait for the acknowledgement, if any is due: a PUBACK at QoS 1, a
    // PUBCOMP at QoS 2.
    method SendAndWait(len: nat, timer: Timer, qos: nat) returns (rc: int)
      requires Valid() && len <= sendbuf.Length
      requires Resolved(log) || qos == inflightQos
      modifies timer, sendbuf, table, this`readbuf, this`log, this`pingOutstanding,
               this`isConnected, this`inflightId, this`inflightQos
      ensures Valid() && Kept()
      ensures rc == SUCCESS || rc == FAILURE
      ensures Since(log, |old(log)|, Offered(old(sendbuf[..len])))
      ensures rc == SUCCESS ==> Since(log, |old(log)|, Sent(old(sendbuf[..len])))
      ensures rc == SUCCESS && qos in {1, 2} ==> Resolved(log) && Acknowledged(qos)
      ensures rc == FAILURE ==>
        log == old(log) + [Offered(old(sendbuf[..len]))] || timer.over || |log| > |old(log)| + 2
      ensures qos !in {1, 2} ==> InFlight() == old(InFlight())
    {
      ghost var wire, packet, start := [], sendbuf[..len], |log|;
      rc, wire := SendPacket(len, timer);
      assert log[start] == Offered(packet);
      if rc != SUCCESS {
        return;
      }
      ghost var sent := log;
      assert sent[start] == Offered(packet) && sent[start + 1] == Sent(packet);
      if qos == 1 {
        rc := AwaitAck(PUBACK, timer);
      } else if qos == 2 {
        rc := AwaitAck(PUBCOMP, timer);
      }
      SinceStays(sent, log, start, Offered(packet));
      SinceStays(sent, log, start, Sent(packet));
    }

    // What was read last acknowledges a publish at this QoS.
    ghost predicate Acknowledged(qos: nat)
      reads this
    {
      readbuf.wellFormed && (qos == 1 ==> readbuf.kind == PUBACK) && (qos == 2 ==> readbuf.kind == PUBCOMP)
    }

    // The private publish: a failure closes the session.
    method SendPublish(len: nat, timer: Timer, qos: nat) returns (rc: int)
      requires Valid() && len <= sendbuf.Length
      requires Resolved(log) || qos == inflightQos
      modifies timer, sendbuf, table, this`readbuf, this`log, this`pingOutstanding,
               this`isConnected, this`inflightId, this`inflightQos
      ensures Valid() && Kept()
      ensures rc == SUCCESS || rc == FAILURE
      ensures rc != SUCCESS ==> !isConnected
      ensures Since(log, |old(log)|, Offered(old(sendbuf[..len])))
      ensures rc == SUCCESS ==> Since(log, |old(log)|, Sent(old(sendbuf[..len])))
      ensures rc == SUCCESS && qos == 1 ==> readbuf.kind == PUBACK && readbuf.wellFormed
      ensures rc == SUCCESS && qos == 2 ==> readbuf.kind == PUBCOMP && readbuf.wellFormed
      ensures rc == SUCCESS && qos in {1, 2} ==> Resolved(log)
      ensures qos !in {1, 2} && (rc == SUCCESS || !cleanSession) ==> InFlight() == old(InFlight())
    {
      ghost var packet := sendbuf[..len];
      rc := SendAndWait(len, timer, qos);
      ghost var mid := log;
      if rc != SUCCESS {
        CloseSession();
      }
      SinceStays(mid, log, |old(log)|, Offered(packet));
    }

    // PacketId::getNext: 1, 2, ..., 65535 and round again; never 0.
    method NextPacketId() returns (id: U16)
      requires nextId <= MAX_PACKET_ID
      modifies this`nextId
      ensures id == nextId && 1 <= id && id == old(nextId) % MAX_PACKET_ID + 1
    {
      nextId := if nextId == MAX_PACKET_ID then 1 else nextId + 1;
      id := nextId;
    }

    // memcpy of sendbuf into pubbuf
    method CopyOut(len: nat)
      requires Shape() && len <= sendbuf.Length
      modifies pubbuf
      ensures pubbuf[..len] == sendbuf[..len]
    {
      for k := 0 to len
        invariant pubbuf[..k] == sendbuf[..k]
      {
        pubbuf[k] := sendbuf[k];
      }
    }

    // Keep the publish for sending again, when all kept before are over.
    method Keep(len: nat, id: U16, qos: nat)
      requires Valid() && Resolved(log) && len <= sendbuf.Length
      requires qos in {1, 2} ==> id != 0
      modifies pubbuf, this`inflightId, this`inflightLen, this`inflightQos, this`log
      ensures Valid()
      ensures InFlight() == Flight(id, qos, if id != 0 then sendbuf[..len] else [])
      ensures log == old(log) + if qos in {1, 2} then [Stored(InFlight())] else []
      ensures Went(old(log), log, false) && (qos !in {1, 2} ==> Resolved(log))
    {
      CopyOut(len);
      inflightId, inflightLen, inflightQos := id, len, qos;
      ghost var now := Flight(id, qos, if id != 0 then sendbuf[..len] else []);
      assert InFlight() == now;
      if qos == 1 || qos == 2 {
        NeutralKeeps(log, Stored(now));
        WaitingNext(log, Stored(now));
        log := log + [Stored(now)];
      }
    }

    // The PUBLISH packet, built in sendbuf if it passes the size check.
    method Build(topic: seq<Byte>, payload: seq<Byte>, id: U16, qos: nat, retained: bool) returns (len: int)
      requires Valid() && qos <= 2 && 0 !in topic && 4 + |topic| + |payload| <= MAX_REMAINING
      modifies sendbuf
      ensures var p := Message(topic, payload, id, qos, retained);
        if PacketLen(|p.Body()|) > sendbuf.Length then len <= 0
        else 0 < len <= sendbuf.Length && sendbuf[..len] == p.Bytes()
    {
      ghost var p := Message(topic, payload, id, qos, retained);
      len := SerializePublish(sendbuf, 0, qos, if retained then 1 else 0, id, MQTTString(Some(topic), None), payload);
      if len > 0 {
        AtSlice(sendbuf[..], 0, p.Bytes());
      }
    }

    // The packet in sendbuf is kept if the session lasts, and sent.
    method KeepAndSend(len: nat, id: U16, qos: nat, timer: Timer) returns (rc: int)
      requires Valid() && Resolved(log) && len <= sendbuf.Length && (qos in {1, 2} ==> id != 0)
      modifies timer, sendbuf, pubbuf, table, this
      ensures Valid() && Settled() && Went(old(log), log, cleanSession) && cleanSession == old(cleanSession)
      ensures Since(log, |old(log)|, Offered(old(sendbuf[..len])))
      ensures rc == SUCCESS ==> Since(log, |old(log)|, Sent(old(sendbuf[..len])))
      ensures rc == SUCCESS && qos == 1 ==> readbuf.kind == PUBACK && readbuf.wellFormed
      ensures rc == SUCCESS && qos == 2 ==> readbuf.kind == PUBCOMP && readbuf.wellFormed
      ensures if rc == SUCCESS then isConnected ==> old(isConnected) else rc == FAILURE && !isConnected
      ensures !cleanSession && qos in {1, 2} ==>
        inflightId in {id, 0} && Since(log, |old(log)|, Stored(Flight(id, qos, old(sendbuf[..len]))))
      ensures !cleanSession && qos !in {1, 2} ==>
        InFlight() == Flight(id, qos, if id != 0 then old(sendbuf[..len]) else [])
    {
      ghost var packet := sendbuf[..len];
      if !cleanSession {
        Keep(len, id, qos);
        assert qos in {1, 2} ==> log[|log| - 1] == Stored(Flight(id, qos, packet));
      }
      ghost var mid := log;
      rc := SendPublish(len, timer, qos);
      SinceBetween(log, |mid|, log, |old(log)|, Offered(packet));
      SinceBetween(log, |mid|, log, |old(log)|, Sent(packet));
      SinceStays(mid, log, |old(log)|, Stored(Flight(id, qos, packet)));
    }

    /** publish. A message at QoS 1 or 2 in a lasting session is kept, byte for byte, which by the
        invariant lasts until it is over; whatever was kept before is over by then, or nothing happens.
        A message at QoS 0 is kept in its place, under the identifier the caller gave. */
    method Publish(topic: seq<Byte>, payload: seq<Byte>, givenId: U16, qos: nat, retained: bool, timer: Timer)
      returns (rc: int, id: U16)
      requires Valid() && Settled() && qos <= 2 && 0 !in topic
      requires 4 + |topic| + |payload| <= MAX_REMAINING
      modifies timer, sendbuf, pubbuf, table, this
      ensures Valid() && Settled() && Went(old(log), log, cleanSession) && cleanSession == old(cleanSession)
      ensures !old(isConnected) ==> rc == FAILURE && InFlight() == old(InFlight()) && log == old(log)
      ensures id == if old(isConnected) && qos > 0 then old(nextId) % MAX_PACKET_ID + 1 else givenId
      ensures rc == SUCCESS ==> Since(log, |old(log)|, Sent(Message(topic, payload, id, qos, retained).Bytes()))
      // Success is answered by the acknowledgement of its QoS.
      ensures rc == SUCCESS && qos == 1 ==> readbuf.kind == PUBACK && readbuf.wellFormed
      ensures rc == SUCCESS && qos == 2 ==> readbuf.kind == PUBCOMP && readbuf.wellFormed
      // A packet that passes the size check is always tried, and a failure closes the session.
      ensures old(isConnected) ==>
        var p := Message(topic, payload, id, qos, retained);
        if PacketLen(|p.Body()|) <= sendbuf.Length then
          Since(log, |old(log)|, Offered(p.Bytes())) && (rc == FAILURE ==> !isConnected)
        else
          rc == FAILURE && log == old(log) && isConnected
      ensures rc == SUCCESS || rc == FAILURE
      ensures
        var p := Message(topic, payload, id, qos, retained);
        old(isConnected) && !cleanSession && PacketLen(|p.Body()|) <= sendbuf.Length ==>
          if qos > 0 then
            inflightId in {id, 0} && Since(log, |old(log)|, Stored(Flight(id, qos, p.Bytes())))
          else
            InFlight() == Flight(id, 0, if id != 0 then p.Bytes() else [])
    {
      rc, id := FAILURE, givenId;
      if !isConnected {
        return;
      }
      if qos == 1 || qos == 2 {
        id := NextPacketId();
      }
      var len := Build(topic, payload, id, qos, retained);
      if len > 0 {
        rc := KeepAndSend(len, id, qos, timer);
      }
    }

    /** A publish that is still kept although the client is connected is gone after the next publish at
        QoS 1 or 2 under another identifier. A foreign acknowledgement leaves one behind, and so does a
        publish at QoS 0 with an identifier. */
    method PublishReplaces(topic: seq<Byte>, payload: seq<Byte>, qos: nat, timer: Timer) returns (rc: int)
      requires Valid() && Settled() && qos in {1, 2} && 0 !in topic
      requires 4 + |topic| + |payload| <= MAX_REMAINING && PacketLen(4 + |topic| + |payload|) <= sendbuf.Length
      requires isConnected && !cleanSession && inflightId !in {0, nextId % MAX_PACKET_ID + 1}
      modifies timer, sendbuf, pubbuf, table, this
      ensures Valid() && Settled() && inflightId != old(inflightId)
    {
      var id;
      rc, id := Publish(topic, payload, 0, qos, false, timer);
    }

    /** A message at QoS 0 to which the caller gave an identifier goes out again every time a lasting
        session comes up, and is still kept after that; without one nothing is kept. */
    method PublishQoS0(topic: seq<Byte>, payload: seq<Byte>, givenId: U16, retained: bool, options: Options, times: nat)
      returns (ups: nat)
      requires Valid() && Settled() && isConnected && !cleanSession && 0 !in topic
      requires 4 + |topic| + |payload| <= MAX_REMAINING && PacketLen(2 + |topic| + |payload|) <= sendbuf.Length
      requires options.Proper() && options.version in {3, 4} && |options.Meaning().Body()| <= MAX_REMAINING
      requires options.cleanSession == 0
      modifies sendbuf, pubbuf, table, this
      ensures Valid() && Settled()
      ensures var packet := Message(topic, payload, givenId, 0, retained).Bytes();
        && InFlight() == Flight(givenId, 0, if givenId != 0 then packet else [])
        && (givenId != 0 ==> Sends(log, packet) >= Sends(old(log), packet) + ups)
    {
      ghost var packet := Message(topic, payload, givenId, 0, retained).Bytes();
      var ticks: nat := *;
      var timer := new Timer(ticks);
      var rc, _ := Publish(topic, payload, givenId, 0, retained, timer);
      ups := if rc == SUCCESS then 1 else 0;
      SendsGrow(old(log), log, packet);
      var more := Reconnect(options, times);
      ups := ups + more;
    }

    // A publish at QoS 0 that is kept goes out on every connection that comes up, and stays kept.
    method Reconnect(options: Options, times: nat) returns (ups: nat)
      requires Valid() && Settled() && !cleanSession && inflightQos == 0
      requires options.Proper() && options.version in {3, 4} && |options.Meaning().Body()| <= MAX_REMAINING
      requires options.cleanSession == 0
      modifies sendbuf, table, this
      ensures Valid() && Settled() && InFlight() == old(InFlight()) && old(log) <= log
      ensures inflightId != 0 ==> Sends(log, InFlight().packet) >= Sends(old(log), InFlight().packet) + ups
    {
      ups := 0;
      ghost var packet := InFlight().packet;
      for k := 0 to times
        invariant Valid() && Settled() && !cleanSession && InFlight() == old(InFlight()) && old(log) <= log
        invariant inflightId != 0 ==> Sends(log, packet) >= Sends(old(log), packet) + ups
      {
        var ticks: nat := *;
        var up := ConnectAgain(options, ticks);
        if up {
          ups := ups + 1;
        }
      }
    }

    // Off and on again.
    method ConnectAgain(options: Options, ticks: nat) returns (up: bool)
      requires Valid() && Settled() && !cleanSession && inflightQos == 0
      requires options.Proper() && options.version in {3, 4} && |options.Meaning().Body()| <= MAX_REMAINING
      requires options.cleanSession == 0
      modifies sendbuf, table, this
      ensures Valid() && Settled() && !cleanSession && InFlight() == old(InFlight()) && old(log) <= log
      ensures inflightId != 0 ==>
        Sends(log, InFlight().packet) >= Sends(old(log), InFlight().packet) + if up then 1 else 0
    {
      var timer := new Timer(ticks);
      var _ := Disconnect(timer);
      ghost var mid := log;
      SendsGrow(old(log), log, InFlight().packet);
      timer := new Timer(ticks);
      var rc, _ := Connect(options, timer);
      up := rc == SUCCESS;
      SendsGrow(mid, log, InFlight().packet);
    }

    // The request in sendbuf goes out, and a packet of the kind that answers it comes in.
    method Ask(len: nat, answer: int, timer: Timer) returns (rc: int)
      requires Valid() && len <= sendbuf.Length && answer > 0
      modifies timer, sendbuf, table, this`readbuf, this`log, this`pingOutstanding,
               this`isConnected, this`inflightId, this`inflightQos
      ensures Valid() && Kept() && (!cleanSession ==> InFlight() == old(InFlight()))
      ensures rc == SUCCESS || rc == FAILURE
      ensures Since(log, |old(log)|, Offered(old(sendbuf[..len])))
      ensures rc == SUCCESS ==> readbuf.kind == answer && Since(log, |old(log)|, Sent(old(sendbuf[..len])))
      ensures rc == FAILURE ==>
        log == old(log) + [Offered(old(sendbuf[..len]))] || timer.over || |log| > |old(log)| + 2
    {
      ghost var wire, packet, start := [], sendbuf[..len], |log|;
      rc, wire := SendPacket(len, timer);
      assert log[start] == Offered(packet);
      if rc != SUCCESS {
        return;
      }
      ghost var sent := log;
      assert sent[start] == Offered(packet) && sent[start + 1] == Sent(packet);
      var got := WaitFor(answer, timer);
      rc := if got == answer then SUCCESS else FAILURE;
      SinceStays(sent, log, start, Offered(packet));
      SinceStays(sent, log, start, Sent(packet));
    }

    /** subscribe. Success means that the request went out and a SUBACK came in, not that the broker
        granted it: a refused filter, code 0x80, is reported as success too. A failure closes the session,
        even when the client was not connected. */
    method Subscribe(filter: seq<Byte>, qos: nat, timer: Timer) returns (rc: int, ghost answered: bool)
      requires Valid() && Settled() && qos <= 2 && 0 !in filter && 5 + |filter| <= MAX_REMAINING
      modifies timer, sendbuf, table, this
      ensures Valid() && Settled() && Grew(old(log), log, cleanSession) && cleanSession == old(cleanSession)
      ensures rc == SUCCESS || rc == FAILURE
      ensures rc == FAILURE ==> !isConnected
      ensures !old(isConnected) ==> rc == FAILURE && nextId == old(nextId)
      ensures answered ==> readbuf.kind == SUBACK
      ensures answered ==>
        Since(log, |old(log)|, Sent(MqttSubscribe.SubscribeBytes(0, nextId, [MqttSubscribe.Topic(filter, qos)])))
      ensures rc == SUCCESS ==> answered
      ensures answered && (!readbuf.wellFormed || readbuf.code == 0x80) ==> rc == SUCCESS
      ensures old(isConnected) ==> nextId == old(nextId) % MAX_PACKET_ID + 1
      ensures !cleanSession ==> InFlight() == old(InFlight())
      ensures old(isConnected) && PacketLen(5 + |filter|) <= sendbuf.Length ==>
        Since(log, |old(log)|, Offered(MqttSubscribe.SubscribeBytes(0, nextId, [MqttSubscribe.Topic(filter, qos)])))
    {
      rc, answered := RequestFilter(filter, qos, timer);
      ghost var mid, packet := log, MqttSubscribe.SubscribeBytes(0, nextId, [MqttSubscribe.Topic(filter, qos)]);
      if rc == FAILURE {
        CloseSession();
      }
      SinceStays(mid, log, |old(log)|, Offered(packet));
      SinceStays(mid, log, |old(log)|, Sent(packet));
    }

    // All of subscribe but its exit.
    method RequestFilter(filter: seq<Byte>, qos: nat, timer: Timer) returns (rc: int, ghost answered: bool)
      requires Valid() && Settled() && qos <= 2 && 0 !in filter && 5 + |filter| <= MAX_REMAINING
      modifies timer, sendbuf, table, this
      ensures Valid() && Settled() && Grew(old(log), log, cleanSession) && cleanSession == old(cleanSession)
      ensures rc == SUCCESS || rc == FAILURE
      ensures !old(isConnected) ==> rc == FAILURE && nextId == old(nextId) && !isConnected
      ensures answered ==> readbuf.kind == SUBACK
      ensures answered ==>
        Since(log, |old(log)|, Sent(MqttSubscribe.SubscribeBytes(0, nextId, [MqttSubscribe.Topic(filter, qos)])))
      ensures rc == SUCCESS ==> answered
      ensures answered && (!readbuf.wellFormed || readbuf.code == 0x80) ==> rc == SUCCESS
      ensures old(isConnected) ==> nextId == old(nextId) % MAX_PACKET_ID + 1
      ensures !cleanSession ==> InFlight() == old(InFlight())
      ensures old(isConnected) && PacketLen(5 + |filter|) <= sendbuf.Length ==>
        Since(log, |old(log)|, Offered(MqttSubscribe.SubscribeBytes(0, nextId, [MqttSubscribe.Topic(filter, qos)])))
    {
      rc, answered := FAILURE, false;
      if !isConnected {
        return;
      }
      var id := NextPacketId();
      var len := BuildSubscribe(filter, qos, id);
      if len <= 0 {
        return;
      }
      rc := Ask(len, SUBACK, timer);
      answered := rc == SUCCESS;
      if rc == SUCCESS && readbuf.wellFormed && readbuf.code != 0x80 {
        rc := SetMessageHandler();
      }
    }

    /** unsubscribe. Success means that the request went out and an UNSUBACK came in. */
    method Unsubscribe(filter: seq<Byte>, timer: Timer) returns (rc: int)
      requires Valid() && Settled() && 0 !in filter && 4 + |filter| <= MAX_REMAINING
      modifies timer, sendbuf, table, this
      ensures Valid() && Settled() && Grew(old(log), log, cleanSession) && cleanSession == old(cleanSession)
      ensures rc == SUCCESS || rc == FAILURE
      ensures rc == FAILURE ==> !isConnected
      ensures !old(isConnected) ==> rc == FAILURE && nextId == old(nextId)
      ensures rc == SUCCESS ==> readbuf.kind == UNSUBACK
      ensures rc == SUCCESS ==> Since(log, |old(log)|, Sent(MqttSubscribe.UnsubscribeBytes(nextId, filter)))
      ensures old(isConnected) ==> nextId == old(nextId) % MAX_PACKET_ID + 1
      ensures !cleanSession ==> InFlight() == old(InFlight())
      ensures old(isConnected) && PacketLen(4 + |filter|) <= sendbuf.Length ==>
        Since(log, |old(log)|, Offered(MqttSubscribe.UnsubscribeBytes(nextId, filter)))
    {
      rc := FAILURE;
      if isConnected {
        var id := NextPacketId();
        var len := BuildUnsubscribe(filter, id);
        if len > 0 {
          rc := Ask(len, UNSUBACK, timer);
        }
      }
      ghost var mid, packet := log, MqttSubscribe.UnsubscribeBytes(nextId, filter);
      if rc != SUCCESS {
        CloseSession();
      }
      SinceStays(mid, log, |old(log)|, Offered(packet));
    }

    // The SUBSCRIBE packet for one filter, built in sendbuf if it passes the size check.
    method BuildSubscribe(filter: seq<Byte>, qos: nat, id: U16) returns (len: int)
      requires Shape() && qos <= 2 && 0 !in filter && 5 + |filter| <= MAX_REMAINING
      modifies sendbuf
      ensures len <= sendbuf.Length
      ensures len > 0 <==> PacketLen(5 + |filter|) <= sendbuf.Length
      ensures len > 0 ==> sendbuf[..len] == MqttSubscribe.SubscribeBytes(0, id, [MqttSubscribe.Topic(filter, qos)])
    {
      var m := MQTTString(Some(filter), None);
      MqttSubscribe.OneTopic(id, m, qos);
      len := MqttSubscribe.SerializeSubscribe(sendbuf, 0, id, [m], [qos]);
      if len > 0 {
        AtSlice(sendbuf[..], 0, MqttSubscribe.SubscribeBytes(0, id, [MqttSubscribe.Topic(filter, qos)]));
      }
    }

    method BuildUnsubscribe(filter: seq<Byte>, id: U16) returns (len: int)
      requires Shape() && 0 !in filter && 4 + |filter| <= MAX_REMAINING
      modifies sendbuf
      ensures len <= sendbuf.Length && (len > 0 <==> PacketLen(4 + |filter|) <= sendbuf.Length)
      ensures len > 0 ==> sendbuf[..len] == MqttSubscribe.UnsubscribeBytes(id, filter)
    {
      len := MqttSubscribe.SerializeUnsubscribe(sendbuf, id, MQTTString(Some(filter), None));
      if len > 0 {
        AtSlice(sendbuf[..], 0, MqttSubscribe.UnsubscribeBytes(id, filter));
      }
    }

    // setMessageHandler: the handler table may have no free entry.
    method SetMessageHandler() returns (rc: int)
      ensures rc == SUCCESS || rc == FAILURE
    {
      var room: bool := *;
      rc := if room then SUCCESS else FAILURE;
    }

    // CONNECT out, CONNACK in; its return code, or FAILURE.
    method Handshake(len: nat, timer: Timer) returns (rc: int, sent: bool, ghost answered: bool)
      requires Valid() && !isConnected && len <= sendbuf.Length
      modifies timer, sendbuf, table, this`readbuf, this`log, this`pingOutstanding,
               this`isConnected, this`inflightId, this`inflightQos
      ensures Valid() && Kept() && InFlight() == old(InFlight())
      ensures Since(log, |old(log)|, Offered(old(sendbuf[..len])))
      ensures if sent then Since(log, |old(log)|, Sent(old(sendbuf[..len]))) else rc == FAILURE
      ensures rc == if answered && readbuf.wellFormed then readbuf.code else FAILURE
      ensures answered ==> sent && readbuf.kind == CONNACK && LastRead(log) == Some(readbuf)
      ensures sent && !answered ==> timer.over || |log| > |old(log)| + 2
    {
      ghost var wire, packet, start := [], sendbuf[..len], |log|;
      rc, wire := SendPacket(len, timer);
      assert log[start] == Offered(packet);
      sent, answered := rc == SUCCESS, false;
      ghost var mid := log;
      if sent {
        assert log[start + 1] == Sent(packet);
        var got := WaitFor(CONNACK, timer);
        answered := got == CONNACK;
        rc := if got == CONNACK && readbuf.wellFormed then readbuf.code else FAILURE;
        SinceStays(mid, log, start, Offered(packet));
        SinceStays(mid, log, start, Sent(packet));
      }
    }

    // The end of connect: send what is in flight again, then come up if all went well.
    method ComeUp(rc0: int, timer: Timer) returns (rc: int)
      requires Valid() && !isConnected
      modifies timer, sendbuf, table, this`readbuf, this`log, this`pingOutstanding,
               this`isConnected, this`inflightId, this`inflightQos
      ensures Valid() && Settled() && Grew(old(log), log, cleanSession)
      ensures old(inflightId) != 0 ==> Since(log, |old(log)|, Offered(old(InFlight()).packet))
      ensures rc == SUCCESS && old(inflightId) != 0 ==> Since(log, |old(log)|, Sent(old(InFlight()).packet))
      ensures rc == SUCCESS && old(inflightId) != 0 && old(inflightQos) == 1 ==> readbuf.kind == PUBACK && readbuf.wellFormed
      ensures rc == SUCCESS && old(inflightId) != 0 && old(inflightQos) == 2 ==> readbuf.kind == PUBCOMP && readbuf.wellFormed
      ensures old(inflightId) == 0 ==> readbuf == old(readbuf)
      ensures rc == SUCCESS <==> isConnected
      ensures cleanSession == old(cleanSession) && keepAliveInterval == old(keepAliveInterval)
      ensures rc == SUCCESS ==> !pingOutstanding
      ensures old(inflightId) == 0 ==> rc == rc0 && log == old(log)
      ensures !cleanSession && old(inflightQos) !in {1, 2} ==> InFlight() == old(InFlight())
    {
      rc := rc0;
      ghost var flight := InFlight();
      if inflightId > 0 {
        Resend();
        assert sendbuf[..inflightLen] == flight.packet;
        rc := SendPublish(inflightLen, timer, inflightQos);
      }
      if rc == SUCCESS {
        isConnected := true;
        pingOutstanding := false;
      }
    }

    /** connect. A publish still in flight is sent again, byte for byte, and the connection only comes
        up once every publish that was kept is over. */
    method Connect(options: Options, timer: Timer) returns (rc: int, ghost answered: bool)
      requires Valid() && Settled()
      requires options.Proper() && options.version in {3, 4} && |options.Meaning().Body()| <= MAX_REMAINING
      modifies timer, sendbuf, table, this
      ensures Valid() && Settled() && Grew(old(log), log, cleanSession)
      ensures rc == SUCCESS && old(inflightId) != 0 ==> Since(log, |old(log)|, Sent(old(InFlight()).packet))
      ensures rc == SUCCESS ==> isConnected && !pingOutstanding && Resolved(log)
      ensures old(isConnected) ==> rc == FAILURE && isConnected && log == old(log)
      // CONNECT is tried if it passes the size check, and the connection comes up only after it went out;
      // with nothing in flight, exactly when a CONNACK with code 0 answers it.
      ensures !old(isConnected) && PacketLen(|options.Meaning().Body()|) <= sendbuf.Length ==>
        Since(log, |old(log)|, Offered(options.Meaning().Bytes()))
      ensures rc == SUCCESS ==> Since(log, |old(log)|, Sent(options.Meaning().Bytes()))
      ensures !old(isConnected) && rc != SUCCESS ==> !isConnected
      ensures answered ==> Since(log, |old(log)|, Sent(options.Meaning().Bytes()))
      ensures old(inflightId) == 0 && !old(isConnected) ==>
        rc == (if answered && readbuf.wellFormed then readbuf.code else FAILURE) && (answered ==> readbuf.kind == CONNACK)
      // A publish in flight is tried again, whatever CONNACK said, and its end is the end of connecting.
      ensures old(inflightId) != 0 && answered ==> Since(log, |old(log)|, Offered(old(InFlight()).packet))
      ensures rc == SUCCESS && old(inflightId) != 0 && old(inflightQos) == 1 ==> readbuf.kind == PUBACK && readbuf.wellFormed
      ensures rc == SUCCESS && old(inflightId) != 0 && old(inflightQos) == 2 ==> readbuf.kind == PUBCOMP && readbuf.wellFormed
      ensures !old(isConnected) ==> cleanSession == (options.cleanSession != 0) && keepAliveInterval == options.keepAlive
      ensures cleanSession ==> old(cleanSession) || options.cleanSession != 0
      ensures !cleanSession && old(inflightQos) !in {1, 2} ==> InFlight() == old(InFlight())
    {
      rc, answered := FAILURE, false;
      if isConnected {
        return;
      }
      keepAliveInterval := options.keepAlive;
      cleanSession := options.cleanSession != 0;
      var len := SerializeConnect(sendbuf, options);
      if len <= 0 {
        return;
      }
      ghost var packet := options.Meaning().Bytes();
      AtSlice(sendbuf[..], 0, packet);
      assert sendbuf[..len] == packet;
      rc, answered := Greet(len, timer);
    }

    // CONNECT is built: the handshake, and what comes after it.
    method Greet(len: nat, timer: Timer) returns (rc: int, ghost answered: bool)
      requires Valid() && !isConnected && len <= sendbuf.Length
      modifies timer, sendbuf, table, this`readbuf, this`log, this`pingOutstanding,
               this`isConnected, this`inflightId, this`inflightQos
      ensures Valid() && Settled() && Grew(old(log), log, cleanSession)
      ensures Since(log, |old(log)|, Offered(old(sendbuf[..len])))
      ensures rc == SUCCESS || answered ==> Since(log, |old(log)|, Sent(old(sendbuf[..len])))
      ensures rc == SUCCESS <==> isConnected
      ensures cleanSession == old(cleanSession) && keepAliveInterval == old(keepAliveInterval)
      ensures rc == SUCCESS ==> !pingOutstanding
      ensures old(inflightId) != 0 && answered ==> Since(log, |old(log)|, Offered(old(InFlight()).packet))
      ensures old(inflightId) != 0 && rc == SUCCESS ==> Since(log, |old(log)|, Sent(old(InFlight()).packet))
      ensures rc == SUCCESS && old(inflightId) != 0 && old(inflightQos) == 1 ==> readbuf.kind == PUBACK && readbuf.wellFormed
      ensures rc == SUCCESS && old(inflightId) != 0 && old(inflightQos) == 2 ==> readbuf.kind == PUBCOMP && readbuf.wellFormed
      ensures old(inflightId) == 0 ==>
        rc == (if answered && readbuf.wellFormed then readbuf.code else FAILURE) && (answered ==> readbuf.kind == CONNACK)
      ensures !cleanSession && old(inflightQos) !in {1, 2} ==> InFlight() == old(InFlight())
    {
      ghost var packet, flight := sendbuf[..len], InFlight();
      var sent;
      rc, sent, answered := Handshake(len, timer);
      if !sent {
        return;
      }
      ghost var mid := log;
      rc := ComeUp(rc, timer);
      SinceBetween(log, |mid|, log, |old(log)|, Offered(flight.packet));
      SinceBetween(log, |mid|, log, |old(log)|, Sent(flight.packet));
      SinceStays(mid, log, |old(log)|, Offered(packet));
      SinceStays(mid, log, |old(log)|, Sent(packet));
    }

    // memcpy of pubbuf into sendbuf
    method Resend()
      requires Valid()
      modifies sendbuf
      ensures sendbuf[..] == pubbuf[..]
    {
      for k := 0 to sendbuf.Length
        invariant sendbuf[..k] == pubbuf[..k]
      {
        sendbuf[k] := pubbuf[k];
      }
    }

    method Yield(timer: Timer) returns (rc: int)
      requires Valid() && Settled()
      modifies timer, sendbuf, table, this
      ensures Valid() && Settled() && Kept() && (!cleanSession ==> InFlight() == old(InFlight()))
      ensures if rc == SUCCESS then timer.over else rc == FAILURE && !isConnected && |log| > |old(log)|
    {
      rc := SUCCESS;
      var done := timer.Expired();
      while !done
        invariant Valid() && Kept() && Settled() && (!cleanSession ==> InFlight() == old(InFlight()))
        invariant rc == SUCCESS && (done ==> timer.over)
        decreases timer.left, !done
      {
        var got := Cycle(timer);
        if got < 0 {
          rc := FAILURE;
          break;
        }
        done := timer.Expired();
      }
    }

    method Disconnect(timer: Timer) returns (rc: int)
      requires Valid() && Settled()
      modifies timer, sendbuf, table, this
      ensures Valid() && Settled() && Kept() && !isConnected
      ensures !cleanSession ==> InFlight() == old(InFlight())
      ensures var packet := Packet(Header(DISCONNECT, 0, 0, 0), []);
        && (sendbuf.Length >= 2 ==> Since(log, |old(log)|, Offered(packet)))
        && (rc == SUCCESS ==> Since(log, |old(log)|, Sent(packet))) && (rc == SUCCESS || rc == FAILURE)
    {
      ghost var packet := Packet(Header(DISCONNECT, 0, 0, 0), []);
      var tried;
      tried, rc := SendEmpty(DISCONNECT, timer);
      ghost var mid := log;
      assert tried ==> mid[|old(log)|] == Offered(packet) && (rc == SUCCESS ==> mid[|old(log)| + 1] == Sent(packet));
      CloseSession();
      SinceStays(mid, log, |old(log)|, Offered(packet));
      SinceStays(mid, log, |old(log)|, Sent(packet));
    }

    // One call of the application.
    method Perform(call: Call, timer: Timer)
      requires Valid() && Settled() && call.Proper()
      modifies timer, sendbuf, pubbuf, table, this
      ensures Valid() && Settled() && Went(old(log), log, cleanSession)
      ensures cleanSession ==> old(cleanSession) || call.Cleans()
    {
      match call
      case DoConnect(options) =>
        var _, _ := Connect(options, timer);
      case DoPublish(topic, payload, id, qos, retained) =>
        var _, _ := Publish(topic, payload, id, qos, retained, timer);
      case DoSubscribe(filter, qos) =>
        var _, _ := Subscribe(filter, qos, timer);
      case DoUnsubscribe(filter) =>
        var _ := Unsubscribe(filter, timer);
      case DoYield =>
        var _ := Yield(timer);
      case DoDisconnect =>
        var _ := Disconnect(timer);
    }

    /** Every run, whatever calls the application makes, whatever packets arrive and whatever writes
        fail. QoS 2 messages are handed over at most once, every release was answered, and every
        arrival is handed over when it is due. Every publish at QoS 1 or 2 that was ever kept in a
        lasting session is still kept, the same to the byte, unless it was acknowledged, another
        identifier was acknowledged while it was waiting, or the session state was dropped; and that
        happens only if some session is clean. */
    method Run(calls: seq<Call>)
      requires Valid() && Settled() && forall k :: 0 <= k < |calls| ==> calls[k].Proper()
      modifies sendbuf, pubbuf, table, this
      ensures Valid() && Settled()
      ensures AtMostOnce(log) && ReleasesAnswered(log) && Prompt(log) && AcksRead(log)
      ensures Retained(log, InFlight()) && (isConnected ==> Resolved(log))
      ensures Went(old(log), log, old(cleanSession) || !Lasting(calls))
    {
      ghost var clean := cleanSession || !Lasting(calls);
      for k := 0 to |calls|
        invariant Valid() && Settled() && Went(old(log), log, clean) && (cleanSession ==> clean)
      {
        var ticks: nat := *;
        var timer := new Timer(ticks);
        Perform(calls[k], timer);
      }
      OrderlyMeans(log);
      OrderlyIsPrompt(log);
    }
  }

  // What the application may ask for.
  datatype Call =
    | DoConnect(options: Options)
    | DoPublish(topic: seq<Byte>, payload: seq<Byte>, id: U16, qos: nat, retained: bool)
    | DoSubscribe(filter: seq<Byte>, qos: nat)
    | DoUnsubscribe(filter: seq<Byte>)
    | DoYield
    | DoDisconnect
  {
    predicate Proper() {
      match this
      case DoConnect(options) =>
        options.Proper() && options.version in {3, 4} && |options.Meaning().Body()| <= MAX_REMAINING
      case DoPublish(topic, payload, _, qos, _) =>
        qos <= 2 && 0 !in topic && 4 + |topic| + |payload| <= MAX_REMAINING
      case DoSubscribe(filter, qos) => qos <= 2 && 0 !in filter && 5 + |filter| <= MAX_REMAINING
      case DoUnsubscribe(filter) => 0 !in filter && 4 + |filter| <= MAX_REMAINING
      case _ => true
    }

    predicate Cleans() {
      DoConnect? && options.cleanSession != 0
    }
  }

  // No call asks for a clean session.
  predicate Lasting(calls: seq<Call>) {
    forall k :: 0 <= k < |calls| ==> !calls[k].Cleans()
  }
}
