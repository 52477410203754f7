/** The packet readers: the resumable non-blocking one delivers what the blocking one does,
    however the byte stream is cut up. */
module MqttReader {
  import opened Histories
  import opened Octets
  import opened MqttWire

  // What the bytes received so far amount to.
  datatype Outcome = Short | Bad | Complete(kind: nat, packet: seq<Byte>, used: nat)

  // The packet as it is left in the buffer: the length field is encoded anew.
  function Rebuilt(data: seq<Byte>, l: Length): seq<Byte>
    requires 1 + l.used + l.value <= |data|
  {
    [data[0]] + Rem(l.value) + data[1 + l.used..1 + l.used + l.value]
  }

  function Parse(data: seq<Byte>, room: nat): (p: Outcome)
    ensures p.Complete? ==> 2 <= p.used <= |data|
  {
    if data == [] then Short else
      var l := ScanLength(data[1..], MAX_LENGTH_BYTES);
      if !l.complete then (if l.used == MAX_LENGTH_BYTES then Bad else Short)
      else if FrameLen(l.value) > room then Bad
      else if |data| < 1 + l.used + l.value then Short
      else Complete(Kind(data[0]), Rebuilt(data, l), 1 + l.used + l.value)
  }

  lemma {:induction false} ScanExtend(s: seq<Byte>, c: Byte, room: nat)
    requires |s| < room && var l := ScanLength(s, room); !l.complete && l.used == |s|
    ensures var l := ScanLength(s, room);
      ScanLength(s + [c], room) == Length(l.value + c % 128 * Pow128(|s|), |s| + 1, c < 128)
  {
    if s == [] {
      assert (s + [c])[1..] == [];
    } else {
      assert (s + [c])[1..] == s[1..] + [c];
      ScanExtend(s[1..], c, room - 1);
      var v, p := ScanLength(s[1..], room - 1).value, Pow128(|s| - 1);
      Shift(v, c % 128, p);
    }
  }

  lemma Shift(v: nat, d: nat, p: nat)
    ensures 128 * (v + d * p) == 128 * v + d * (128 * p)
  {
  }

  lemma {:induction false} ScanStable(s: seq<Byte>, t: seq<Byte>, room: nat)
    requires var l := ScanLength(s, room); l.complete || l.used == room
    ensures ScanLength(s + t, room) == ScanLength(s, room)
  {
    if room > 0 && s != [] && s[0] >= 128 {
      assert (s + t)[1..] == s[1..] + t;
      ScanStable(s[1..], t, room - 1);
    }
  }

  /** Bytes that arrive later do not change a verdict. */
  lemma ParseStable(data: seq<Byte>, more: seq<Byte>, room: nat)
    requires !Parse(data, room).Short?
    ensures Parse(data + more, room) == Parse(data, room)
  {
    ScanStable(data[1..], more, MAX_LENGTH_BYTES);
    assert (data + more)[1..] == data[1..] + more;
    var l := ScanLength(data[1..], MAX_LENGTH_BYTES);
    if l.complete && 1 + l.used + l.value <= |data| {
      assert (data + more)[1 + l.used..1 + l.used + l.value] == data[1 + l.used..1 + l.used + l.value];
    }
  }

  // Four length bytes and still no last one.
  predicate Overlong(data: seq<Byte>) {
    && data != []
    && var l := ScanLength(data[1..], MAX_LENGTH_BYTES);
    !l.complete && l.used == MAX_LENGTH_BYTES
  }

  /** What a writer sends is what a reader sees: a packet at the head of the stream is delivered to the
      byte if it fits the buffer, and refused if it does not. */
  lemma PacketIsParsed(h: Byte, body: seq<Byte>, rest: seq<Byte>, room: nat)
    requires |body| <= MAX_REMAINING
    ensures Parse(Packet(h, body) + rest, room) ==
      if FrameLen(|body|) <= room then Complete(Kind(h), Packet(h, body), FrameLen(|body|)) else Bad
    ensures ParseBlocking(Packet(h, body) + rest, room, NO_FAULTS) == Parse(Packet(h, body) + rest, room)
  {
    var r := Rem(|body|);
    var data := Packet(h, body) + rest;
    Regroup([h] + r, body, rest);
    Regroup([h], r, body + rest);
    assert data == [h] + (r + (body + rest));
    assert data[1..] == r + (body + rest);
    assert Pow128(4) == 128 * 128 * 128 * 128;
    LengthRoundTrip(|body|, body + rest, MAX_LENGTH_BYTES);
    assert data[1 + |r|..1 + |r| + |body|] == body;
  }

  /** And whatever is delivered is a packet: the first byte of the stream and the body that its length
      field declares, with that length in its shortest form. */
  lemma ParsedIsPacket(data: seq<Byte>, room: nat)
    requires Parse(data, room).Complete?
    ensures var p := Parse(data, room);
      var l := ScanLength(data[1..], MAX_LENGTH_BYTES);
      && l.value <= p.used && p.packet == Packet(data[0], data[p.used - l.value..p.used])
      && p.kind == Kind(data[0]) && |p.packet| <= room
  {
  }

  class Transport {
    var multiplier: nat
    var remLen: nat
    var len: nat
    var state: nat
    var stream: seq<Byte>       // what the peer has sent and nobody has read
    ghost var taken: seq<Byte>  // what was read since the last packet boundary
    ghost var broken: bool      // getfn has reported an error
    ghost var starved: bool     // getfn has returned less than asked, in the current call
    ghost var again: nat        // how often getfn has answered "call again"

    constructor (data: seq<Byte>)
      ensures state == 0 && stream == data && taken == [] && !broken
    {
      multiplier, remLen, len, state, stream, taken := 0, 0, 0, 0, data, [];
      broken, starved, again := false, false, 0;
    }

    // Every answer of getfn that is not an error adds to this.
    ghost function Spent(): nat
      reads this
    {
      again + |taken|
    }

    // getfn: any number of the bytes asked for, none for "call again", or -1 for an error.
    method GetFn(count: nat) returns (frc: int, got: seq<Byte>)
      requires count > 0
      modifies this`stream, this`taken, this`broken, this`starved, this`again
      ensures -1 <= frc <= count
      ensures again == old(again) + if frc == 0 then 1 else 0
      ensures frc == -1 ==> broken && got == [] && stream == old(stream) && taken == old(taken)
      ensures frc >= 0 ==> broken == old(broken) && |got| == frc
      ensures starved == (old(starved) || frc < count)
      ensures frc >= 0 ==> got + stream == old(stream) && taken == old(taken) + got
    {
      frc :| -1 <= frc <= count && frc <= |stream|;
      starved := starved || frc < count;
      again := again + if frc == 0 then 1 else 0;
      if frc == -1 {
        broken, got := true, [];
      } else {
        got, stream := stream[..frc], stream[frc..];
        taken := taken + got;
      }
    }

    // In the middle of the length field.
    ghost predicate InLength()
      reads this
    {
      && state == 1 && taken != []
      && var l := ScanLength(taken[1..], MAX_LENGTH_BYTES);
      && !l.complete && l.used == |taken| - 1 == len
      && (len > 0 ==> remLen == l.value && multiplier == Pow128(len))
    }

    // The length is known and fits: len bytes of the rebuilt packet are in the buffer and
    // remLen are still missing.
    ghost predicate InBody(buf: seq<Byte>)
      reads this
    {
      state == 2 && taken != [] && BodySoFar(taken, buf, len, remLen)
    }

    ghost predicate Progress(buf: seq<Byte>)
      reads this
    {
      || (state == 0 && taken == [])
      || (InLength() && buf != [] && buf[0] == taken[0])
      || InBody(buf)
    }

    // MQTTPacket_decodenb
    method DecodeNb() returns (rc: int)
      requires InLength()
      modifies this
      ensures taken + stream == old(taken + stream) && state == 1
      ensures taken != [] && taken[0] == old(taken[0])
      ensures rc == -1 ==> broken || Overlong(taken)
      ensures rc == 0 ==> InLength() && broken == old(broken) && starved && Spent() > old(Spent())
      ensures rc >= -1
      ensures rc > 0 ==> broken == old(broken) && starved == old(starved) && rc == |taken| - 1
      ensures again >= old(again) && |taken| >= |old(taken)|
      ensures rc > 0 ==> ScanLength(taken[1..], MAX_LENGTH_BYTES) == Length(remLen, rc, true)
    {
      if len == 0 {
        multiplier, remLen := 1, 0;
      }
      var more := true;
      while more
        invariant taken + stream == old(taken + stream) && state == 1 && starved == old(starved)
        invariant taken != [] && taken[..1] == old(taken[..1]) && broken == old(broken)
        invariant Digits(more) && again == old(again) && |taken| >= |old(taken)|
        decreases more, MAX_LENGTH_BYTES - len
      {
        if len >= MAX_LENGTH_BYTES {
          return -1;
        }
        var frc;
        frc, more := TakeDigit();
        if frc != 1 {
          return frc;
        }
      }
      rc := len;
    }

    // The digits of the length field so far are all that was taken after the first byte.
    ghost predicate Digits(more: bool)
      reads this
    {
      && taken != [] && len == |taken| - 1
      && ScanLength(taken[1..], MAX_LENGTH_BYTES) == Length(remLen, len, !more)
      && (more ==> multiplier == Pow128(len))
    }

    // One digit of the length field; frc is what getfn said.
    method TakeDigit() returns (frc: int, more: bool)
      requires state == 1 && Digits(true) && len < MAX_LENGTH_BYTES
      modifies this
      ensures taken + stream == old(taken + stream) && state == 1 && -1 <= frc <= 1
      ensures taken != [] && taken[..1] == old(taken[..1]) && |taken| == |old(taken)| + (if frc == 1 then 1 else 0)
      ensures frc == -1 ==> broken && again == old(again)
      ensures frc == 0 ==> InLength() && broken == old(broken) && starved && again == old(again) + 1
      ensures frc == 1 ==> Digits(more) && broken == old(broken) && starved == old(starved) && again == old(again)
      ensures frc == 1 ==> len == old(len) + 1
    {
      ghost var before := taken;
      var got;
      frc, got := GetFn(1);
      more := true;
      if frc != 1 {
        assert taken == before;
        return;
      }
      var c := got[0];
      assert taken == before + [c] && taken[..1] == before[..1];
      NextDigit(before, c, len, remLen, multiplier);
      len := len + 1;
      remLen := remLen + c % 128 * multiplier;
      multiplier := multiplier * 128;
      more := c >= 128;
    }

    // The three stages of MQTTPacket_readnb: header byte, remaining length, body. Each returns
    // whether the next stage is reached; if not, rc is what the call returns.
    method HeaderStage(buf: array<Byte>) returns (next: bool, rc: int)
      requires state == 0 && taken == [] && buf.Length > 4
      modifies this, buf
      ensures taken + stream == old(taken + stream)
      ensures next ==> InLength() && buf[0] == taken[0] && starved == old(starved)
      ensures again >= old(again) && Spent() >= old(Spent()) && (!next && rc == 0 ==> Spent() > old(Spent()))
      ensures !next ==> state == 0
      ensures !next && rc == 0 ==> taken == [] && starved
      ensures !next ==> rc == 0 || (rc == -1 && broken)
      ensures broken ==> old(broken) || (!next && rc == -1)
    {
      var frc, got := GetFn(1);
      if frc == -1 {
        return false, -1;
      }
      if frc == 0 {
        return false, 0;
      }
      buf[0] := got[0];
      len := 0;
      state := 1;
      assert taken[1..] == [];
      return true, 0;
    }

    method LengthStage(buf: array<Byte>) returns (next: bool, rc: int)
      requires InLength() && buf.Length > 4 && buf[0] == taken[0]
      modifies this, buf
      ensures taken + stream == old(taken + stream) && taken != []
      ensures next ==> InBody(buf[..]) && starved == old(starved)
      ensures again >= old(again) && Spent() >= old(Spent()) && (!next && rc == 0 ==> Spent() > old(Spent()))
      ensures !next && rc == 0 ==> InLength() && buf[0] == taken[0] && starved
      ensures !next ==> rc == 0 || rc == -1
      ensures !next && rc == -1 ==> broken || Parse(taken, buf.Length) == Bad
      ensures broken ==> old(broken) || (!next && rc == -1)
    {
      var frc := DecodeNb();
      if frc == -1 {
        return false, -1;
      }
      if frc == 0 {
        return false, 0;
      }
      next := PutBack(buf);
      rc := if next then 0 else -1;
    }

    // The length just read goes into the buffer; false when the packet does not fit there.
    method PutBack(buf: array<Byte>) returns (fits: bool)
      requires buf.Length > 4 && taken != [] && buf[0] == taken[0]
      requires ScanLength(taken[1..], MAX_LENGTH_BYTES) == Length(remLen, |taken| - 1, true)
      modifies this`len, this`state, buf
      ensures fits <==> FrameLen(remLen) <= buf.Length
      ensures fits ==> InBody(buf[..])
    {
      ghost var b0, first := buf[..], [taken[0]];
      ScanAnyBound(taken[1..], MAX_LENGTH_BYTES);
      RemShort(remLen, MAX_LENGTH_BYTES);
      var n := Encode(buf, 1, remLen);
      len := 1 + n;
      if remLen + len > buf.Length {
        return false;
      }
      state := 2;
      PutPut(b0, 0, first, b0, Rem(remLen), buf[..]);
      assert taken[|taken|..] == [];
      assert first + Rem(remLen) + [] == first + Rem(remLen);
      fits := true;
    }

    // Asks for the missing part of the body; 1 when it is all there, 0 for "call again".
    method Receive(buf: array<Byte>) returns (rc: int)
      requires InBody(buf[..]) && remLen != 0
      modifies this, buf
      ensures taken + stream == old(taken + stream)
      ensures -1 <= rc <= 1 && (rc == -1 ==> broken)
      ensures broken ==> old(broken) || rc == -1
      ensures rc >= 0 ==> InBody(buf[..])
      ensures again >= old(again) && (rc == 0 ==> starved && Spent() > old(Spent()))
      ensures rc == 1 ==> remLen == 0 && starved == old(starved)
    {
      ghost var before, b0 := taken, buf[..];
      var frc, got := GetFn(remLen);
      if frc == -1 {
        return -1;
      }
      if frc == 0 {
        assert taken == before;
        return 0;
      }
      var end := WriteBytes(buf, len, got);
      BodyGrows(before, got, b0, buf[..], len, remLen);
      remLen := remLen - frc;
      len := len + frc;
      rc := if remLen != 0 then 0 else 1;
    }

    method BodyStage(buf: array<Byte>) returns (rc: int)
      requires InBody(buf[..])
      modifies this, buf
      ensures taken + stream == old(taken + stream)
      ensures rc >= -1 && (rc == -1 ==> broken) && again >= old(again)
      ensures broken ==> old(broken) || rc == -1
      ensures rc >= 0 && state == 2 ==> rc == 0 && InBody(buf[..]) && starved && Spent() > old(Spent())
      ensures rc >= 0 && state != 2 ==> starved == old(starved)
      ensures rc >= 0 && state != 2 ==>
        var p := Parse(taken, buf.Length);
        p.Complete? && rc == p.kind && At(buf[..], 0, p.packet) && p.used == |taken|
    {
      if remLen != 0 {
        rc := Receive(buf);
        if rc != 1 {
          return;
        }
      }
      BodyDone(taken, buf[..], len);
      rc := Kind(buf[0]);
      state := 0;
    }
  }

  lemma NextDigit(before: seq<Byte>, c: Byte, len: nat, remLen: nat, multiplier: nat)
    requires before != [] && len == |before| - 1 < MAX_LENGTH_BYTES && multiplier == Pow128(len)
    requires ScanLength(before[1..], MAX_LENGTH_BYTES) == Length(remLen, len, false)
    ensures ScanLength((before + [c])[1..], MAX_LENGTH_BYTES) == Length(remLen + c % 128 * multiplier, len + 1, c < 128)
    ensures Pow128(len + 1) == multiplier * 128
  {
    assert (before + [c])[1..] == before[1..] + [c];
    ScanExtend(before[1..], c, MAX_LENGTH_BYTES);
  }

  // The packet at the head of all is in the buffer, and exactly its bytes have been used up.
  ghost predicate Delivered(all: seq<Byte>, room: nat, buf: seq<Byte>, kind: int, left: seq<Byte>) {
    var p := Parse(all, room);
    p.Complete? && kind == p.kind && At(buf, 0, p.packet) && p.used <= |all| && left == all[p.used..]
  }

  lemma TakenDelivered(taken: seq<Byte>, stream: seq<Byte>, room: nat, buf: seq<Byte>, kind: int)
    requires var p := Parse(taken, room);
      p.Complete? && kind == p.kind && At(buf, 0, p.packet) && p.used == |taken|
    ensures Delivered(taken + stream, room, buf, kind, stream)
  {
    ParseStable(taken, stream, room);
    assert (taken + stream)[|taken|..] == stream;
  }

  // The first two states: `next` tells that the body is reached, else rc is final.
  method ToBody(buf: array<Byte>, trp: Transport) returns (next: bool, rc: int)
    requires buf.Length > 4 && trp.Progress(buf[..]) && !trp.starved
    modifies buf, trp
    ensures trp.taken + trp.stream == old(trp.taken + trp.stream)
    ensures trp.again >= old(trp.again) && trp.Spent() >= old(trp.Spent())
    ensures next ==> trp.InBody(buf[..]) && !trp.starved && (trp.broken ==> old(trp.broken))
    ensures !next ==> rc == 0 || rc == -1
    ensures !next && rc == 0 ==> trp.starved && trp.Progress(buf[..]) && trp.Spent() > old(trp.Spent())
    ensures !next && rc == -1 ==> trp.broken || Parse(trp.taken, buf.Length) == Bad
    ensures trp.broken ==> old(trp.broken) || (!next && rc == -1)
  {
    next, rc := true, 0;
    if trp.state != 1 && trp.state != 2 {
      next, rc := trp.HeaderStage(buf);
    }
    if next && trp.state == 1 {
      next, rc := trp.LengthStage(buf);
    }
  }

  /** One call of MQTTPacket_readnb. Whatever getfn yields, the call either asks to be called
      again, having kept every byte it got, and only because getfn returned less than it was
      asked for; or delivers exactly the packet at the head of the byte stream and is ready for
      the next; or fails because getfn failed or no packet can be there. The reserved packet
      type 0 is delivered too, but its code is the one for "call again". */
  method ReadNb(buf: array<Byte>, trp: Transport) returns (rc: int)
    requires buf.Length > 4 && trp.Progress(buf[..])
    modifies buf, trp
    ensures rc >= -1 && trp.again >= old(trp.again)
    ensures trp.broken ==> old(trp.broken) || rc == -1
    ensures rc >= 0 && trp.starved ==>
      && rc == 0 && trp.Progress(buf[..]) && trp.taken + trp.stream == old(trp.taken + trp.stream)
      && trp.Spent() > old(trp.Spent())
    ensures rc >= 0 && !trp.starved ==> Delivered(old(trp.taken + trp.stream), buf.Length, buf[..], rc, trp.stream)
    ensures rc == -1 ==> trp.broken || Parse(old(trp.taken + trp.stream), buf.Length) == Bad
    ensures rc == -1 || !trp.starved ==> trp.state == 0 && trp.taken == []
  {
    trp.starved := false;
    var next;
    next, rc := ToBody(buf, trp);
    if next {
      rc := trp.BodyStage(buf);
      if rc >= 0 && trp.state == 2 {
        return;
      }
      if rc >= 0 {
        TakenDelivered(trp.taken, trp.stream, buf.Length, buf[..], rc);
      }
    } else if rc == 0 {
      return;
    } else if !trp.broken {
      ParseStable(trp.taken, trp.stream, buf.Length);
    }
    trp.state := 0;
    trp.taken := [];
  }

  // While a packet is being put together, no byte after it has been taken.
  lemma TakenWithin(trp: Transport, buf: seq<Byte>)
    requires trp.Progress(buf) && Parse(trp.taken + trp.stream, |buf|).Complete?
    ensures |trp.taken| <= Parse(trp.taken + trp.stream, |buf|).used
  {
    var all := trp.taken + trp.stream;
    if trp.taken != [] {
      assert all[1..] == trp.taken[1..] + trp.stream;
      if trp.InBody(buf) {
        ScanStable(trp.taken[1..], trp.stream, MAX_LENGTH_BYTES);
      } else {
        ScanGoesOn(trp.taken[1..], trp.stream, MAX_LENGTH_BYTES);
      }
    }
  }

  lemma {:induction false} ScanGoesOn(s: seq<Byte>, t: seq<Byte>, room: nat)
    requires var l := ScanLength(s, room); !l.complete && l.used == |s|
    ensures ScanLength(s + t, room).used >= |s|
  {
    if s != [] && room > 0 {
      assert (s + t)[1..] == s[1..] + t;
      ScanGoesOn(s[1..], t, room - 1);
    }
  }

  // The bytes of the packets of the reserved type 0 that the stream begins with: the code that ReadNb
  // gives for one of them is the one for "call again", so a caller that goes on calling passes over it.
  function Skipped(data: seq<Byte>, room: nat): (n: nat)
    ensures n <= |data|
  {
    var p := Parse(data, room);
    if p.Complete? && p.kind == 0 then p.used + Skipped(data[p.used..], room) else 0
  }

  // The reader has passed over the first bytes of all and is at work on what follows.
  ghost predicate Passed(all: seq<Byte>, room: nat, skipped: nat, rest: seq<Byte>) {
    skipped <= |all| && rest == all[skipped..] && skipped + Skipped(rest, room) == Skipped(all, room)
  }

  lemma PassedOne(all: seq<Byte>, room: nat, skipped: nat, rest: seq<Byte>, left: seq<Byte>)
    requires Passed(all, room, skipped, rest)
    requires var p := Parse(rest, room); p.Complete? && p.kind == 0 && left == rest[p.used..]
    ensures Passed(all, room, skipped + Parse(rest, room).used, left)
  {
  }

  // Nothing after the packet at work has been taken, so all that was taken lies within the packets
  // passed over and the next one.
  lemma PassedWithin(trp: Transport, buf: seq<Byte>, all: seq<Byte>, skipped: nat)
    requires trp.Progress(buf) && Passed(all, |buf|, skipped, trp.taken + trp.stream)
    requires Parse(all[Skipped(all, |buf|)..], |buf|).Complete?
    ensures 2 * skipped + |trp.taken| <= 2 * Skipped(all, |buf|) + Parse(all[Skipped(all, |buf|)..], |buf|).used
  {
    var rest := trp.taken + trp.stream;
    TakenWithin(trp, buf);
    if Skipped(rest, |buf|) == 0 {
      assert all[Skipped(all, |buf|)..] == rest;
    } else {
      assert |trp.taken| <= Parse(rest, |buf|).used <= Skipped(rest, |buf|);
    }
  }

  /** Fragmentation independence: calling again as long as asked, over any cutting of the stream,
      ends in the verdict that the bytes alone determine, after the packets of type 0 that come first;
      and it does end, once there are more calls than "call again" answers and bytes together, the
      bytes passed over counted twice. */
  method ReadNbUntil(buf: array<Byte>, trp: Transport, calls: nat) returns (rc: int, ghost skipped: nat)
    requires buf.Length > 4 && trp.state == 0 && trp.taken == []
    modifies buf, trp
    ensures rc >= -1 && (trp.broken ==> old(trp.broken) || rc == -1)
    ensures skipped <= Skipped(old(trp.stream), buf.Length)
    ensures rc > 0 ==> skipped == Skipped(old(trp.stream), buf.Length)
    ensures rc > 0 ==> Delivered(old(trp.stream)[skipped..], buf.Length, buf[..], rc, trp.stream)
    ensures rc == -1 ==> trp.broken || Parse(old(trp.stream)[Skipped(old(trp.stream), buf.Length)..], buf.Length) == Bad
    ensures rc == 0 ==> trp.Progress(buf[..]) && trp.taken + trp.stream == old(trp.stream)[skipped..]
    ensures rc == 0 ==> calls <= trp.again - old(trp.again) + 2 * skipped + |trp.taken|
    ensures var n := Skipped(old(trp.stream), buf.Length);
      var p := Parse(old(trp.stream)[n..], buf.Length);
      p.Complete? && calls > trp.again - old(trp.again) + 2 * n + p.used ==> rc != 0
  {
    ghost var all, room := trp.stream, buf.Length;
    rc, skipped := 0, 0;
    assert trp.taken + trp.stream == all == all[0..];
    var done := 0;
    while rc == 0 && done < calls
      invariant rc >= -1 && done <= calls && (trp.broken ==> old(trp.broken) || rc == -1)
      invariant skipped <= Skipped(all, room)
      invariant rc == 0 ==> trp.Progress(buf[..]) && Passed(all, room, skipped, trp.taken + trp.stream)
      invariant rc == 0 ==> done <= trp.Spent() - old(trp.again) + 2 * skipped
      invariant rc > 0 ==> skipped == Skipped(all, room) && Delivered(all[skipped..], room, buf[..], rc, trp.stream)
      invariant rc == -1 ==> trp.broken || Parse(all[Skipped(all, room)..], room) == Bad
    {
      rc, skipped := ReadOn(buf, trp, all, skipped);
      done := done + 1;
    }
    if rc == 0 && Parse(all[Skipped(all, room)..], room).Complete? {
      PassedWithin(trp, buf[..], all, skipped);
    }
  }

  // One more call.
  method ReadOn(buf: array<Byte>, trp: Transport, ghost all: seq<Byte>, ghost before: nat)
    returns (rc: int, ghost skipped: nat)
    requires buf.Length > 4 && trp.Progress(buf[..]) && Passed(all, buf.Length, before, trp.taken + trp.stream)
    modifies buf, trp
    ensures rc >= -1 && (trp.broken ==> old(trp.broken) || rc == -1)
    ensures skipped <= Skipped(all, buf.Length)
    ensures rc == 0 ==> trp.Progress(buf[..]) && Passed(all, buf.Length, skipped, trp.taken + trp.stream)
    ensures rc == 0 ==> trp.Spent() + 2 * skipped > old(trp.Spent()) + 2 * before
    ensures rc > 0 ==>
      skipped == Skipped(all, buf.Length) && Delivered(all[skipped..], buf.Length, buf[..], rc, trp.stream)
    ensures rc == -1 ==> trp.broken || Parse(all[Skipped(all, buf.Length)..], buf.Length) == Bad
  {
    ghost var rest := trp.taken + trp.stream;
    TakenSoFar(trp, buf[..]);
    rc := ReadNb(buf, trp);
    skipped := before;
    if rc == 0 && !trp.starved {
      PassedOne(all, buf.Length, before, rest, trp.stream);
      skipped := before + Parse(rest, buf.Length).used;
      assert trp.taken + trp.stream == trp.stream;
    }
  }

  lemma TakenSoFar(trp: Transport, buf: seq<Byte>)
    requires trp.Progress(buf)
    ensures Parse(trp.taken + trp.stream, |buf|).Complete? ==>
      |trp.taken| <= Parse(trp.taken + trp.stream, |buf|).used
  {
    if Parse(trp.taken + trp.stream, |buf|).Complete? {
      TakenWithin(trp, buf);
    }
  }

  // Where the transport of the blocking reader fails: at the header byte, after so many bytes of
  // the length field, at the body.
  datatype Faults = Faults(header: bool, length: nat, body: bool)

  const NO_FAULTS := Faults(false, MAX_LENGTH_BYTES, false)

  // What the blocking reader makes of a stream: it uses whatever value the length field gave,
  // even when the field broke off or was too long.
  function ParseBlocking(data: seq<Byte>, room: nat, faults: Faults): Outcome
    requires faults.length <= MAX_LENGTH_BYTES
  {
    if data == [] || faults.header then Short else
      var l := ScanLength(data[1..], faults.length);
      if FrameLen(l.value) > room then Bad
      else if |data| < 1 + l.used + l.value || (l.value > 0 && faults.body) then Short
      else Complete(Kind(data[0]), Rebuilt(data, l), 1 + l.used + l.value)
  }

  /** What a faultless stream is to the blocking reader: the same packet as to the other one if that
      sees one; and it sees one where the other does not exactly if the length field has no last byte. */
  lemma ReadersAgree(data: seq<Byte>, room: nat)
    ensures Parse(data, room).Complete? ==> ParseBlocking(data, room, NO_FAULTS) == Parse(data, room)
    ensures ParseBlocking(data, room, NO_FAULTS).Complete? ==>
      (Parse(data, room).Complete? <==> ScanLength(data[1..], MAX_LENGTH_BYTES).complete)
  {
  }

  /** A PUBLISH whose length field breaks off after one byte: the blocking reader delivers an empty
      packet, the other one goes on waiting. */
  lemma CutLengthDelivered()
    ensures ScanLength([128], MAX_LENGTH_BYTES) == Length(0, 1, false)
    ensures Parse([48, 128], 16) == Short
    ensures ParseBlocking([48, 128], 16, NO_FAULTS) == Complete(3, [48, 0], 2)
  {
    var data: seq<Byte> := [48, 128];
    assert data[1..] == [128] && [128][1..] == [];
    assert ScanLength([128], MAX_LENGTH_BYTES) == Length(0, 1, false) by {
      assert ScanLength([], MAX_LENGTH_BYTES - 1) == Length(0, 0, false);
    }
    assert Rem(0) == [0] && data[2..2] == [];
  }

  /** Both readers on the same stream: what the non-blocking one delivers, however the stream is cut
      up, is what the blocking one delivers from the stream in one piece, unless that has type 0. */
  method ReadBoth(buf: array<Byte>, trp: Transport, calls: nat, other: array<Byte>) returns (rc: int, blocking: int)
    requires buf.Length == other.Length > 4 && buf != other
    requires trp.state == 0 && trp.taken == []
    modifies buf, trp, other
    ensures var p := Parse(old(trp.stream), buf.Length);
      && (p.Complete? ==> blocking == p.kind && At(other[..], 0, p.packet))
      && (p.Complete? && rc > 0 && blocking != 0 ==> rc == blocking && At(buf[..], 0, p.packet))
      && (p.Complete? && blocking != 0 && calls > trp.again - old(trp.again) + p.used ==>
            rc == blocking || (rc == -1 && trp.broken))
      && (rc > 0 ==> p.Complete?)
  {
    var stream := trp.stream;
    blocking := Read(other, stream, NO_FAULTS);
    ghost var skipped;
    rc, skipped := ReadNbUntil(buf, trp, calls);
    ReadersAgree(stream, buf.Length);
    assert stream[0..] == stream;
  }

  // MQTTPacket_decode over a stream that may end, or fail after `limit` bytes.
  method Decode(stream: seq<Byte>, pos: nat, limit: nat) returns (used: nat, value: nat)
    requires pos <= |stream| && limit <= MAX_LENGTH_BYTES
    ensures var l := ScanLength(stream[pos..], limit);
      used == l.used && value == l.value
  {
    ghost var all := ScanLength(stream[pos..], limit);
    ScanOnIs(stream[pos..], limit, 0, 1, 0);
    var multiplier: nat := 1;
    used, value := 0, 0;
    var more := true;
    while more
      invariant used <= limit && pos + used <= |stream|
      invariant more ==> all == ScanOn(stream[pos + used..], limit - used, value, multiplier, used)
      invariant !more ==> all == Length(value, used, true)
      decreases more, limit - used
    {
      ghost var here := stream[pos + used..];
      if used + 1 > MAX_LENGTH_BYTES || used == limit || pos + used >= |stream| {
        return;
      }
      assert here != [] && here[1..] == stream[pos + used + 1..];
      var c := stream[pos + used];
      used := used + 1;
      value := value + c % 128 * multiplier;
      multiplier := multiplier * 128;
      more := c >= 128;
    }
  }

  lemma {:induction false} ScanAnyBound(s: seq<Byte>, room: nat)
    ensures ScanLength(s, room).value < Pow128(room)
  {
    if room > 0 && s != [] && s[0] >= 128 {
      ScanAnyBound(s[1..], room - 1);
    }
  }

  lemma {:induction false} PowGrows(k: nat, m: nat)
    requires k <= m
    ensures Pow128(k) <= Pow128(m)
  {
    if k < m {
      PowGrows(k, m - 1);
    }
  }

  /** MQTTPacket_read, with a getfn that returns what was asked for or fails. */
  method Read(buf: array<Byte>, stream: seq<Byte>, faults: Faults) returns (rc: int)
    requires buf.Length > 4 && faults.length <= MAX_LENGTH_BYTES
    modifies buf
    ensures var p := ParseBlocking(stream, buf.Length, faults);
      if p.Complete? then rc == p.kind && At(buf[..], 0, p.packet) else rc == -1
  {
    if |stream| < 1 || faults.header {
      return -1;
    }
    var used, remLen := Decode(stream, 1, faults.length);
    var len := WriteHeader(buf, stream, faults.length, remLen);
    if remLen + len > buf.Length {
      return -1;
    }
    var body := stream[1 + used..];
    if remLen != 0 && (|body| < remLen || faults.body) {
      return -1;
    }
    ghost var b1 := buf[..];
    var end := WriteBytes(buf, len, body[..remLen]);
    BodyFollows(stream, used, remLen, b1, buf[..]);
    rc := Kind(buf[0]);
  }

  // The header was in the buffer, and now the body is behind it.
  lemma BodyFollows(stream: seq<Byte>, used: nat, n: nat, b1: seq<Byte>, b2: seq<Byte>)
    requires 1 + used + n <= |stream|
    requires var head := [stream[0]] + Rem(n);
      Put(b1, 0, head, b1) && Put(b1, |head|, stream[1 + used..][..n], b2)
    ensures |b2| > 0 && b2[0] == stream[0]
    ensures At(b2, 0, [stream[0]] + Rem(n) + stream[1 + used..1 + used + n])
  {
    var head, body := [stream[0]] + Rem(n), stream[1 + used..1 + used + n];
    assert stream[1 + used..][..n] == body;
    PutPut(b1, 0, head, b1, body, b2);
    assert b2[0] == (head + body)[0];
  }

  // The first byte and the length field, put back into the buffer.
  method WriteHeader(buf: array<Byte>, stream: seq<Byte>, limit: nat, remLen: nat) returns (len: nat)
    requires buf.Length > 4 && stream != [] && limit <= MAX_LENGTH_BYTES
    requires remLen == ScanLength(stream[1..], limit).value
    modifies buf
    ensures len == 1 + |Rem(remLen)| && Put(buf[..], 0, [stream[0]] + Rem(remLen), buf[..])
  {
    ScanAnyBound(stream[1..], limit);
    PowGrows(limit, MAX_LENGTH_BYTES);
    RemShort(remLen, MAX_LENGTH_BYTES);
    buf[0] := stream[0];
    ghost var b0 := buf[..];
    var n := Encode(buf, 1, remLen);
    len := 1 + n;
    assert Put(b0, 0, [stream[0]], b0);
    PutPut(b0, 0, [stream[0]], b0, Rem(remLen), buf[..]);
  }

  // len bytes of the rebuilt packet are in the buffer and rem are still missing.
  ghost predicate BodySoFar(taken: seq<Byte>, buf: seq<Byte>, len: nat, rem: nat)
    requires taken != []
  {
    var l := ScanLength(taken[1..], MAX_LENGTH_BYTES);
    && l.complete && 1 + l.used <= |taken|
    && len + rem == FrameLen(l.value) <= |buf|
    && var got := [taken[0]] + Rem(l.value) + taken[1 + l.used..];
    At(buf, 0, got) && len == |got|
  }

  lemma BodyGrows(before: seq<Byte>, got: seq<Byte>, b0: seq<Byte>, b1: seq<Byte>, len: nat, rem: nat)
    requires before != [] && |got| <= rem && BodySoFar(before, b0, len, rem)
    requires Put(b0, len, got, b1)
    ensures BodySoFar(before + got, b1, len + |got|, rem - |got|)
  {
    var l := ScanLength(before[1..], MAX_LENGTH_BYTES);
    var head := [before[0]] + Rem(l.value);
    assert (before + got)[1..] == before[1..] + got;
    ScanStable(before[1..], got, MAX_LENGTH_BYTES);
    AtGrows(b0, head + before[1 + l.used..], got, b1);
    Tail(before, got, 1 + l.used);
    Regroup(head, before[1 + l.used..], got);
  }

  lemma AtGrows(a: seq<Byte>, x: seq<Byte>, y: seq<Byte>, b: seq<Byte>)
    requires At(a, 0, x) && Put(a, |x|, y, b)
    ensures At(b, 0, x + y)
  {
    assert At(b, 0, x);
    AtSplit(b, 0, x, y);
  }

  lemma Tail(s: seq<Byte>, t: seq<Byte>, n: nat)
    requires n <= |s|
    ensures (s + t)[n..] == s[n..] + t
  {
  }

  lemma BodyDone(taken: seq<Byte>, buf: seq<Byte>, len: nat)
    requires taken != [] && BodySoFar(taken, buf, len, 0)
    ensures |buf| > 0
    ensures var p := Parse(taken, |buf|);
      p.Complete? && Kind(buf[0]) == p.kind && At(buf, 0, p.packet) && p.used == |taken|
  {
    var l := ScanLength(taken[1..], MAX_LENGTH_BYTES);
    assert taken[1 + l.used..1 + l.used + l.value] == taken[1 + l.used..];
    assert buf[0] == ([taken[0]] + Rem(l.value) + taken[1 + l.used..])[0];
  }

  lemma {:induction false} RemShort(n: nat, k: nat)
    requires k >= 1 && n < Pow128(k)
    ensures |Rem(n)| <= k
    decreases k
  {
    if n >= 128 {
      RemShort(n / 128, k - 1);
    }
  }
}
