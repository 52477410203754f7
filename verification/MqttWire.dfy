/** MQTT 3.1.1 wire primitives: the variable-length remaining length (section 2.2.3), two-byte
    integers and length-prefixed strings, written and read through a moving cursor. */
module MqttWire {
  import opened Histories
  import opened Octets
  import opened Optional

  const BUFFER_TOO_SHORT := -2
  const MAX_LENGTH_BYTES := 4
  const MAX_REMAINING := 268435455

  // The remaining-length field of n.
  function Rem(n: nat): (r: seq<Byte>)
    ensures |r| >= 1
  {
    if n < 128 then [n] else [n % 128 + 128] + Rem(n / 128)
  }

  // value and number of bytes of the field at the head of s, reading at most room bytes.
  datatype Length = Length(value: nat, used: nat, complete: bool)

  function ScanLength(s: seq<Byte>, room: nat): (r: Length)
    ensures r.used <= |s| && r.used <= room
    ensures r.complete ==> r.used >= 1
  {
    if room == 0 || s == [] then Length(0, 0, false)
    else if s[0] < 128 then Length(s[0], 1, true)
    else
      var t := ScanLength(s[1..], room - 1);
      Length(s[0] - 128 + 128 * t.value, 1 + t.used, t.complete)
  }

  function Pow128(k: nat): (p: nat)
    ensures p >= 1
  {
    if k == 0 then 1 else 128 * Pow128(k - 1)
  }

  /** A reader that accepts at most room bytes recovers n from its field, whatever follows,
      if and only if n has at most room base-128 digits. */
  lemma {:induction false} LengthRoundTrip(n: nat, rest: seq<Byte>, room: nat)
    ensures ScanLength(Rem(n) + rest, room) == Length(n, |Rem(n)|, true) <==> room >= 1 && n < Pow128(room)
    decreases n
  {
    var s := Rem(n) + rest;
    if n >= 128 && room >= 1 {
      assert s[1..] == Rem(n / 128) + rest;
      LengthRoundTrip(n / 128, rest, room - 1);
      assert n < Pow128(room) <==> n / 128 < Pow128(room - 1);
    }
  }

  // MQTTPacket_len: the size of a packet with the given remaining length, rounded up near
  // the borders of the field's sizes.
  function PacketLen(rem: nat): nat {
    var n := rem + 1;
    if n < 128 then n + 1 else if n < 16384 then n + 2 else if n < 2097151 then n + 3 else n + 4
  }

  /** The size check before serializing is sound exactly up to the protocol's limit, and
      it asks for one byte too many exactly at four values. */
  lemma PacketLenIsSafe(rem: nat)
    ensures 1 + |Rem(rem)| + rem <= PacketLen(rem) <==> rem <= MAX_REMAINING
    ensures rem <= MAX_REMAINING ==>
      PacketLen(rem) - (1 + |Rem(rem)| + rem) ==
        if rem in {127, 16383, 2097150, 2097151} then 1 else 0
  {
    var a, b, c := rem / 128, rem / 128 / 128, rem / 128 / 128 / 128;
    if rem >= 128 {
      assert |Rem(rem)| == 1 + |Rem(a)|;
      if a >= 128 {
        assert |Rem(a)| == 1 + |Rem(b)|;
        if b >= 128 {
          assert |Rem(b)| == 1 + |Rem(c)|;
        }
      }
    }
  }

  /** The field is the base-128 digits of n, lowest first, with the top bit on all bytes but the last. */
  lemma {:induction false} RemDigits(n: nat, k: nat)
    requires k < |Rem(n)|
    ensures Rem(n)[k] % 128 == n / Pow128(k) % 128
    ensures Rem(n)[k] >= 128 <==> k < |Rem(n)| - 1
    decreases k
  {
    if k == 0 {
      assert Pow128(0) == 1 && n / 1 == n;
      assert n >= 128 ==> |Rem(n / 128)| >= 1;
    } else {
      RemDigits(n / 128, k - 1);
      DivDiv(n, 128, Pow128(k - 1));
    }
  }

  lemma DivDiv(n: nat, a: nat, b: nat)
    requires a > 0 && b > 0
    ensures a * b > 0 && n / a / b == n / (a * b)
  {
    MulGap(a, 0, b);
    var q, r, s := n / a / b, n / a % b, n % a;
    assert n / a == b * q + r;
    assert n == a * (n / a) + s == a * (b * q + r) + s == (a * b) * q + (a * r + s) by {
      assert a * (b * q + r) == a * b * q + a * r;
    }
    MulGap(a, r, b);
    assert a * r + s < a * b;
    DivIs(n, a * b, q, a * r + s);
  }

  // Table 2.4 of the standard: the borders of the field's sizes.
  lemma RemBorders()
    ensures Rem(0) == [0x00] && Rem(127) == [0x7F]
    ensures Rem(128) == [0x80, 0x01] && Rem(16383) == [0xFF, 0x7F]
    ensures Rem(16384) == [0x80, 0x80, 0x01] && Rem(2097151) == [0xFF, 0xFF, 0x7F]
    ensures Rem(2097152) == [0x80, 0x80, 0x80, 0x01] && Rem(268435455) == [0xFF, 0xFF, 0xFF, 0x7F]
  {
  }

  // writeInt keeps the low 16 bits, the higher byte first.
  function Int16(n: nat): (r: seq<Byte>)
    ensures |r| == 2
    ensures n < 0x1_0000 ==> n == 256 * r[0] as int + r[1] as int
  {
    [n / 256 % 256, n % 256]
  }

  function Str(s: seq<Byte>): (r: seq<Byte>)
    ensures |r| == 2 + |s|
  {
    Int16(|s|) + s
  }

  // x lies in buf at pos.
  predicate At(buf: seq<Byte>, pos: nat, x: seq<Byte>) {
    pos + |x| <= |buf| && forall i {:trigger x[i]} :: 0 <= i < |x| ==> buf[pos + i] == x[i]
  }

  lemma AtSplit(buf: seq<Byte>, pos: nat, x: seq<Byte>, y: seq<Byte>)
    ensures At(buf, pos, x + y) <==> At(buf, pos, x) && At(buf, pos + |x|, y)
  {
    if At(buf, pos, x + y) {
      assert forall i :: 0 <= i < |x| ==> (x + y)[i] == x[i];
      assert forall i :: 0 <= i < |y| ==> (x + y)[|x| + i] == y[i];
    }
  }

  lemma AtSlice(buf: seq<Byte>, pos: nat, x: seq<Byte>)
    requires At(buf, pos, x)
    ensures buf[pos..pos + |x|] == x
  {
  }

  // Writing x at position at turns the buffer a into b, and touches nothing else.
  predicate Put(a: seq<Byte>, at: nat, x: seq<Byte>, b: seq<Byte>) {
    && |a| == |b| && At(b, at, x)
    && forall i {:trigger b[i]} :: 0 <= i < |b| && !(at <= i < at + |x|) ==> b[i] == a[i]
  }

  // Two writes in a row are one.
  lemma PutPut(a: seq<Byte>, at: nat, x: seq<Byte>, b: seq<Byte>, y: seq<Byte>, c: seq<Byte>)
    requires Put(a, at, x, b) && Put(b, at + |x|, y, c)
    ensures Put(a, at, x + y, c)
  {
    forall i | 0 <= i < |x|
      ensures c[at + i] == x[i]
    {
      assert c[at + i] == b[at + i];
    }
    AtSplit(c, at, x, y);
    forall i | 0 <= i < |c| && !(at <= i < at + |x + y|)
      ensures c[i] == a[i]
    {
      assert c[i] == b[i];
    }
  }

  // A string argument: a C string, a counted one, or neither.
  datatype MQTTString = MQTTString(cstring: Option<seq<Byte>>, data: Option<seq<Byte>>)
  {
    // A C string ends before its first NUL; the two forms are not mixed.
    predicate Proper() {
      && (cstring.Some? ==> 0 !in cstring.value)
      && (cstring.None? || data.None? || data.value == [])
    }

    predicate Present() {
      cstring.Some? || data.Some?
    }

    // The text it stands for.
    function Text(): seq<Byte> {
      if cstring.Some? then cstring.value else if data.Some? then data.value else []
    }

    // The text that is written: of two forms the counted one, where the length counts the other.
    function Written(): (text: seq<Byte>)
      ensures Proper() ==> text == Text()
    {
      if data.Some? && data.value != [] then data.value else if cstring.Some? then cstring.value else []
    }
  }

  method StrLen(m: MQTTString) returns (n: nat)
    ensures n == |m.Text()|
  {
    if m.cstring.Some? {
      n := |m.cstring.value|;
    } else {
      n := if m.data.Some? then |m.data.value| else 0;
    }
  }

  // MQTTPacket_encode
  method Encode(buf: array<Byte>, pos: nat, length: nat) returns (rc: nat)
    requires pos + |Rem(length)| <= buf.Length
    modifies buf
    ensures rc == |Rem(length)|
    ensures Put(old(buf[..]), pos, Rem(length), buf[..])
  {
    rc := 0;
    var len, more := length, true;
    ghost var all, done: seq<Byte> := Rem(length), [];
    while more
      invariant |done| == rc && rc <= |all|
      invariant all == done + if more then Rem(len) else []
      invariant Put(old(buf[..]), pos, done, buf[..])
      decreases more, len
    {
      ghost var mid, rest := buf[..], Rem(len);
      var d := len % 128;
      len := len / 128;
      if len > 0 {
        d := d + 0x80;
      }
      buf[pos + rc] := d;
      rc := rc + 1;
      more := len > 0;
      PutPut(old(buf[..]), pos, done, mid, [d], buf[..]);
      Regroup(done, [d], if more then Rem(len) else []);
      assert rest == [d] + if more then Rem(len) else [];
      done := done + [d];
    }
  }

  // The scan with value, multiplier and count carried along, as the loops do it.
  function ScanOn(s: seq<Byte>, room: nat, value: nat, multiplier: nat, used: nat): Length {
    if room == 0 || s == [] then Length(value, used, false)
    else if s[0] < 128 then Length(value + s[0] % 128 * multiplier, used + 1, true)
    else ScanOn(s[1..], room - 1, value + s[0] % 128 * multiplier, multiplier * 128, used + 1)
  }

  // Carrying them along gives the same field.
  lemma {:induction false} ScanOnIs(s: seq<Byte>, room: nat, value: nat, multiplier: nat, used: nat)
    ensures var l := ScanLength(s, room);
      ScanOn(s, room, value, multiplier, used) == Length(value + multiplier * l.value, used + l.used, l.complete)
  {
    if room > 0 && s != [] {
      var d := s[0] % 128;
      if s[0] < 128 {
        assert d == s[0];
      } else {
        ScanOnIs(s[1..], room - 1, value + d * multiplier, multiplier * 128, used + 1);
        Distribute(multiplier, d, ScanLength(s[1..], room - 1).value);
      }
    }
  }

  lemma Distribute(m: nat, c: nat, v: nat)
    ensures m * (c + 128 * v) == c * m + m * 128 * v
  {
  }

  // MQTTPacket_decodeBuf
  method DecodeBuf(buf: seq<Byte>, pos: nat) returns (len: nat, value: nat)
    requires pos <= |buf|
    requires ScanLength(buf[pos..], MAX_LENGTH_BYTES).complete || pos + MAX_LENGTH_BYTES <= |buf|
    ensures var r := ScanLength(buf[pos..], MAX_LENGTH_BYTES);
      value == r.value && len == if r.complete then r.used else MAX_LENGTH_BYTES + 1
  {
    len, value := DecodeUpTo(buf, pos, MAX_LENGTH_BYTES);
  }

  // The decoding loop, with its bound on the number of bytes.
  method DecodeUpTo(buf: seq<Byte>, pos: nat, limit: nat) returns (len: nat, value: nat)
    requires pos <= |buf|
    requires ScanLength(buf[pos..], limit).complete || pos + limit <= |buf|
    ensures var r := ScanLength(buf[pos..], limit);
      value == r.value && len == if r.complete then r.used else limit + 1
  {
    ghost var all := ScanLength(buf[pos..], limit);
    ScanOnIs(buf[pos..], limit, 0, 1, 0);
    var multiplier: nat := 1;
    len, value := 0, 0;
    var more := true;
    while more
      invariant len <= limit && pos + len <= |buf|
      invariant all.complete || pos + limit <= |buf|
      invariant more ==> all == ScanOn(buf[pos + len..], limit - len, value, multiplier, len)
      invariant !more ==> all == Length(value, len, true)
      decreases more, limit - len
    {
      len := len + 1;
      if len > limit {
        return;
      }
      ghost var here := buf[pos + len - 1..];
      assert here != [] && here[1..] == buf[pos + len..];
      var c := buf[pos + len - 1];
      value := value + c % 128 * multiplier;
      multiplier := multiplier * 128;
      more := c >= 128;
    }
  }

  method WriteChar(buf: array<Byte>, ptr: nat, c: Byte) returns (next: nat)
    requires ptr < buf.Length
    modifies buf
    ensures next == ptr + 1
    ensures Put(old(buf[..]), ptr, [c], buf[..])
  {
    buf[ptr] := c;
    next := ptr + 1;
  }

  method WriteInt(buf: array<Byte>, ptr: nat, n: nat) returns (next: nat)
    requires ptr + 2 <= buf.Length
    modifies buf
    ensures next == ptr + 2
    ensures Put(old(buf[..]), ptr, Int16(n), buf[..])
  {
    buf[ptr] := n / 256 % 256;
    buf[ptr + 1] := n % 256;
    next := ptr + 2;
  }

  // memcpy into the output buffer
  method WriteBytes(buf: array<Byte>, ptr: nat, s: seq<Byte>) returns (next: nat)
    requires ptr + |s| <= buf.Length
    modifies buf
    ensures next == ptr + |s|
    ensures Put(old(buf[..]), ptr, s, buf[..])
  {
    for k := 0 to |s|
      invariant forall i :: 0 <= i < k ==> buf[ptr + i] == s[i]
      invariant forall i :: 0 <= i < buf.Length && !(ptr <= i < ptr + k) ==> buf[i] == old(buf[i])
    {
      buf[ptr + k] := s[k];
    }
    next := ptr + |s|;
  }

  // writeCString, on the bytes before the terminator
  method WriteCString(buf: array<Byte>, ptr: nat, s: seq<Byte>) returns (next: nat)
    requires ptr + 2 + |s| <= buf.Length
    modifies buf
    ensures next == ptr + 2 + |s|
    ensures Put(old(buf[..]), ptr, Str(s), buf[..])
  {
    next := WriteInt(buf, ptr, |s|);
    ghost var mid := buf[..];
    next := WriteBytes(buf, next, s);
    PutPut(old(buf[..]), ptr, Int16(|s|), mid, s, buf[..]);
  }

  // writeMQTTString
  method WriteMQTTString(buf: array<Byte>, ptr: nat, m: MQTTString) returns (next: nat)
    requires ptr + 2 + |m.Written()| <= buf.Length
    modifies buf
    ensures next == ptr + 2 + |m.Written()|
    ensures Put(old(buf[..]), ptr, Str(m.Written()), buf[..])
  {
    if m.data.Some? && |m.data.value| > 0 {
      next := WriteInt(buf, ptr, |m.data.value|);
      ghost var mid := buf[..];
      next := WriteBytes(buf, next, m.data.value);
      PutPut(old(buf[..]), ptr, Int16(|m.data.value|), mid, m.data.value, buf[..]);
    } else if m.cstring.Some? {
      next := WriteCString(buf, ptr, m.cstring.value);
    } else {
      next := WriteInt(buf, ptr, 0);
      assert Str([]) == Int16(0);
    }
  }

  method ReadInt(buf: seq<Byte>, pos: nat) returns (n: nat, next: nat)
    requires pos + 2 <= |buf|
    ensures next == pos + 2 && n == IntAt(buf, pos)
  {
    n := 256 * buf[pos] as int + buf[pos + 1] as int;
    next := pos + 2;
  }

  function IntAt(buf: seq<Byte>, pos: nat): nat
    requires pos + 2 <= |buf|
  {
    256 * buf[pos] as int + buf[pos + 1] as int
  }

  // readMQTTLenString: end is the end of the data, which is never read past.
  method ReadLenString(buf: seq<Byte>, pos: nat, end: nat) returns (ok: bool, s: seq<Byte>, next: nat)
    requires end <= |buf|
    ensures ok <==> pos + 2 <= end && pos + 2 + IntAt(buf, pos) <= end
    ensures ok ==> next == pos + 2 + IntAt(buf, pos) && s == buf[pos + 2..next]
  {
    ok, s, next := false, [], pos;
    if end - pos > 1 {
      var len;
      len, next := ReadInt(buf, pos);
      if next + len <= end {
        s := buf[next..next + len];
        next := next + len;
        ok := true;
      }
    }
  }

  /** A written string reads back from any buffer that holds it, exactly when its length
      fits the two-byte prefix. */
  lemma StringRoundTrip(buf: seq<Byte>, pos: nat, s: seq<Byte>)
    requires At(buf, pos, Str(s))
    ensures IntAt(buf, pos) == |s| <==> |s| < 0x1_0000
    ensures |s| < 0x1_0000 ==> buf[pos + 2..pos + 2 + |s|] == s
  {
    AtSplit(buf, pos, Int16(|s|), s);
    assert buf[pos] == Int16(|s|)[0] && buf[pos + 1] == Int16(|s|)[1];
    AtSlice(buf, pos + 2, s);
  }

  lemma IntRoundTrip(buf: seq<Byte>, pos: nat, n: nat)
    requires At(buf, pos, Int16(n)) && n < 0x1_0000
    ensures IntAt(buf, pos) == n
  {
    assert buf[pos] == Int16(n)[0] && buf[pos + 1] == Int16(n)[1];
  }

  // First byte of a packet: the bit fields keep the low bits of what is assigned to them.
  function Header(kind: nat, dup: nat, qos: nat, retain: nat): Byte {
    kind % 16 * 16 + dup % 2 * 8 + qos % 4 * 2 + retain % 2
  }

  function Kind(h: Byte): nat { h / 16 }
  function Dup(h: Byte): nat { h / 8 % 2 }
  function Qos(h: Byte): nat { h / 2 % 4 }
  function Retain(h: Byte): nat { h % 2 }

  lemma HeaderRoundTrip(kind: nat, dup: nat, qos: nat, retain: nat)
    requires kind < 16 && dup < 2 && qos < 4 && retain < 2
    ensures var h := Header(kind, dup, qos, retain);
      && h == 16 * kind + 8 * dup + 2 * qos + retain
      && Kind(h) == kind && Dup(h) == dup && Qos(h) == qos && Retain(h) == retain
  {
    var h, a, b := Header(kind, dup, qos, retain), 8 * kind + 4 * dup + qos, 2 * kind + dup;
    DivIs(kind, 16, 0, kind);
    DivIs(dup, 2, 0, dup);
    DivIs(qos, 4, 0, qos);
    DivIs(retain, 2, 0, retain);
    DivIs(h, 16, kind, 8 * dup + 2 * qos + retain);
    DivIs(h, 8, b, 2 * qos + retain);
    DivIs(h, 2, a, retain);
    DivIs(a, 4, b, qos);
    DivIs(b, 2, kind, dup);
  }

  // A whole packet, and its size for an n-byte body.
  function Packet(header: Byte, body: seq<Byte>): seq<Byte> {
    [header] + Rem(|body|) + body
  }

  function FrameLen(n: nat): nat {
    1 + |Rem(n)| + n
  }

  // The buffer starts with the packet, told part by part.
  predicate Framed(buf: seq<Byte>, header: Byte, body: seq<Byte>) {
    && |buf| >= FrameLen(|body|)
    && buf[0] == header && At(buf, 1, Rem(|body|)) && At(buf, 1 + |Rem(|body|)|, body)
  }

  /** A reader that takes the parts in turn sees the packet exactly when the buffer starts
      with the bytes the writer puts there. */
  lemma FramedIsPacket(buf: seq<Byte>, header: Byte, body: seq<Byte>)
    ensures |Packet(header, body)| == FrameLen(|body|)
    ensures Framed(buf, header, body) <==> At(buf, 0, Packet(header, body))
  {
    AtSplit(buf, 0, [header] + Rem(|body|), body);
    AtSplit(buf, 0, [header], Rem(|body|));
    assert At(buf, 0, [header]) <==> |buf| >= 1 && buf[0] == [header][0];
  }

  // The fixed header of a packet with an n-byte body.
  method WriteHead(buf: array<Byte>, header: Byte, n: nat) returns (next: nat)
    requires 1 + |Rem(n)| <= buf.Length
    modifies buf
    ensures next == 1 + |Rem(n)|
    ensures Put(old(buf[..]), 0, [header] + Rem(n), buf[..])
  {
    next := WriteChar(buf, 0, header);
    ghost var mid := buf[..];
    var rc := Encode(buf, next, n);
    PutPut(old(buf[..]), 0, [header], mid, Rem(n), buf[..]);
    next := next + rc;
  }

  // The length field of a packet at the head of the buffer, as the code reads it.
  function Field(buf: seq<Byte>): Length
    requires buf != []
  {
    ScanLength(buf[1..], MAX_LENGTH_BYTES)
  }

  // What MQTTPacket_decodeBuf returns for it: one more than allowed when it does not end.
  function FieldSize(buf: seq<Byte>): nat
    requires buf != []
  {
    if Field(buf).complete then Field(buf).used else MAX_LENGTH_BYTES + 1
  }

  // Where the body begins, and where it ends by the length declared.
  function BodyAt(buf: seq<Byte>): nat
    requires buf != []
  {
    1 + FieldSize(buf)
  }

  function EndAt(buf: seq<Byte>): nat
    requires buf != []
  {
    BodyAt(buf) + Field(buf).value
  }

  // The memory at the buffer holds its length field and the body that this declares.
  predicate Holds(buf: seq<Byte>) {
    buf != [] && (Field(buf).complete || 1 + MAX_LENGTH_BYTES <= |buf|) && EndAt(buf) <= |buf|
  }

  lemma ShortField(buf: seq<Byte>)
    requires |buf| >= 2 && buf[1] < 128
    ensures Field(buf) == Length(buf[1], 1, true)
  {
    assert buf[1..][0] == buf[1];
  }

  /** A packet that was written is found where it is. */
  lemma FramedIsFound(buf: seq<Byte>, header: Byte, body: seq<Byte>)
    requires Framed(buf, header, body) && |body| <= MAX_REMAINING
    ensures BodyAt(buf) == 1 + |Rem(|body|)| && EndAt(buf) == FrameLen(|body|) && Holds(buf)
    ensures At(buf, BodyAt(buf), body)
  {
    var r := Rem(|body|);
    AtSlice(buf, 1, r);
    assert buf[1..] == r + buf[1 + |r|..];
    LengthRoundTrip(|body|, buf[1 + |r|..], MAX_LENGTH_BYTES);
    assert Pow128(4) == 128 * 128 * 128 * 128;
  }

  // The length field of a buffer that holds a packet.
  method ReadLength(buf: seq<Byte>, ghost header: Byte, ghost body: seq<Byte>) returns (used: nat, myLen: nat)
    requires Framed(buf, header, body) && |body| <= MAX_REMAINING
    ensures used == |Rem(|body|)| && myLen == |body|
    ensures At(buf, 1 + used, body)
  {
    FramedIsFound(buf, header, body);
    used, myLen := DecodeBuf(buf, 1);
  }
}
