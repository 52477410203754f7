/** CONNECT (section 3.1): the client's options survive serializing and deserializing, with the
    exact condition on the credentials under which the deserializer accepts them. */
module MqttConnect {
  import opened Histories
  import opened Octets
  import opened Optional
  import opened MqttWire

  const CONNECT := 1
  const MQTT: seq<Byte> := [77, 81, 84, 84]
  const MQISDP: seq<Byte> := [77, 81, 73, 115, 100, 112]

  // The caller's options; the bit fields of the flags byte keep their low bits only.
  datatype WillOptions = WillOptions(topicName: MQTTString, message: MQTTString, retained: Byte, qos: Byte)
  datatype Options = Options(
    version: nat, clientId: MQTTString, keepAlive: U16, cleanSession: Byte, willFlag: Byte,
    will: WillOptions, username: MQTTString, password: MQTTString)
  {
    predicate Proper() {
      clientId.Proper() && will.topicName.Proper() && will.message.Proper() && username.Proper() && password.Proper()
    }

    function Meaning(): Connect {
      Connect(version, clientId.Text(), keepAlive, cleanSession % 2,
              if willFlag == 0 then None
              else Some(Will(will.topicName.Text(), will.message.Text(), will.qos % 4, will.retained % 2)),
              Credential(username), Credential(password))
    }
  }

  // What a CONNECT packet says.
  datatype Will = Will(topic: seq<Byte>, message: seq<Byte>, qos: nat, retained: nat)
  datatype Connect = Connect(
    version: nat, clientId: seq<Byte>, keepAlive: U16, cleanSession: nat,
    will: Option<Will>, username: Option<seq<Byte>>, password: Option<seq<Byte>>)
  {
    predicate Valid() {
      && version in {3, 4} && cleanSession < 2 && |clientId| < 0x1_0000
      && (will.Some? ==> |will.value.topic| < 0x1_0000 && |will.value.message| < 0x1_0000
                         && will.value.qos < 4 && will.value.retained < 2)
      && Fits(username) && Fits(password)
      && |Body()| <= MAX_REMAINING
    }

    function Flags(): Byte {
      FlagsByte(cleanSession, will, username.Some?, password.Some?)
    }

    function Head(): seq<Byte> {
      Protocol(version) + [Flags()] + Int16(keepAlive)
    }

    function Payload(): seq<Byte> {
      Str(clientId) + WillBytes(will) + OptStr(username) + OptStr(password)
    }

    function Body(): seq<Byte> {
      Head() + Payload()
    }

    function Bytes(): seq<Byte> {
      Packet(Header(CONNECT, 0, 0, 0), Body())
    }

    /** Which credentials the deserializer lets through: a password needs a username, and the
        last credential in the packet must not be empty. */
    predicate Acceptable() {
      && (password.Some? ==> username.Some? && password.value != [])
      && (username.Some? && password.None? ==> username.value != [])
    }
  }

  function Protocol(version: nat): seq<Byte> {
    if version == 4 then Str(MQTT) + [4] else Str(MQISDP) + [3]
  }

  function Credential(m: MQTTString): Option<seq<Byte>> {
    if m.Present() then Some(m.Text()) else None
  }

  predicate Fits(s: Option<seq<Byte>>) {
    s.Some? ==> |s.value| < 0x1_0000
  }

  function OptStr(s: Option<seq<Byte>>): seq<Byte> {
    if s.Some? then Str(s.value) else []
  }

  function WillBytes(w: Option<Will>): seq<Byte> {
    if w.Some? then Str(w.value.topic) + Str(w.value.message) else []
  }

  function Bit(b: bool): nat { if b then 1 else 0 }

  function FlagsByte(clean: nat, will: Option<Will>, user: bool, pass: bool): Byte {
    clean % 2 * 2 + Bit(will.Some?) * 4
    + (if will.Some? then will.value.qos % 4 * 8 + will.value.retained % 2 * 32 else 0)
    + Bit(pass) * 64 + Bit(user) * 128
  }

  // The digits of a flags byte, from the lowest bit up.
  lemma FlagDigits(c: nat, w: nat, q: nat, r: nat, p: nat, u: nat, f: nat)
    requires c < 2 && w < 2 && q < 4 && r < 2 && p < 2 && u < 2
    requires f == 2 * c + 4 * w + 8 * q + 32 * r + 64 * p + 128 * u
    ensures f / 2 % 2 == c && f / 4 % 2 == w && f / 8 % 4 == q && f / 32 % 2 == r && f / 64 % 2 == p && f / 128 == u
  {
    var f64 := 2 * u + p;
    var f32 := 2 * f64 + r;
    var f8 := 4 * f32 + q;
    var f4 := 2 * f8 + w;
    DivIs(f, 2, 2 * f4 + c, 0);
    DivIs(2 * f4 + c, 2, f4, c);
    DivIs(f, 4, f4, 2 * c);
    DivIs(f4, 2, f8, w);
    DivIs(f, 8, f8, 4 * w + 2 * c);
    DivIs(f8, 4, f32, q);
    DivIs(f, 32, f32, 8 * q + 4 * w + 2 * c);
    DivIs(f32, 2, f64, r);
    DivIs(f, 64, f64, 32 * r + 8 * q + 4 * w + 2 * c);
    DivIs(f64, 2, u, p);
    DivIs(f, 128, u, 64 * p + 32 * r + 8 * q + 4 * w + 2 * c);
  }

  lemma FlagsRoundTrip(clean: nat, will: Option<Will>, user: bool, pass: bool)
    requires clean < 2 && (will.Some? ==> will.value.qos < 4 && will.value.retained < 2)
    ensures var f := FlagsByte(clean, will, user, pass);
      && f / 2 % 2 == clean && f / 4 % 2 == Bit(will.Some?)
      && f / 64 % 2 == Bit(pass) && f / 128 == Bit(user)
      && (will.Some? ==> f / 8 % 4 == will.value.qos && f / 32 % 2 == will.value.retained)
  {
    var q, r := if will.Some? then will.value.qos else 0, if will.Some? then will.value.retained else 0;
    FlagsAre(clean, will, user, pass);
    FlagDigits(clean, Bit(will.Some?), q, r, Bit(pass), Bit(user), FlagsByte(clean, will, user, pass));
  }

  lemma FlagsAre(clean: nat, will: Option<Will>, user: bool, pass: bool)
    requires clean < 2 && (will.Some? ==> will.value.qos < 4 && will.value.retained < 2)
    ensures FlagsByte(clean, will, user, pass) ==
      2 * clean + 4 * Bit(will.Some?) + 8 * (if will.Some? then will.value.qos else 0)
      + 32 * (if will.Some? then will.value.retained else 0) + 64 * Bit(pass) + 128 * Bit(user)
  {
  }

  /** The variable header of Figure 3.6 of the standard: level 4, every flag but will retain, will QoS 1,
      a keep-alive of 10 seconds. */
  lemma StandardExample(c: Connect)
    requires c.version == 4 && c.cleanSession == 1 && c.keepAlive == 10 && c.username.Some? && c.password.Some?
    requires c.will.Some? && c.will.value.qos == 1 && c.will.value.retained == 0
    ensures c.Head() == [0x00, 0x04, 0x4D, 0x51, 0x54, 0x54, 0x04, 0xCE, 0x00, 0x0A]
    ensures Protocol(3) == [0x00, 0x06, 0x4D, 0x51, 0x49, 0x73, 0x64, 0x70, 0x03]
  {
    FlagsAre(c.cleanSession, c.will, true, true);
    assert Str(MQTT) == [0x00, 0x04, 0x4D, 0x51, 0x54, 0x54];
  }

  // The order of the payload (section 3.1.3).
  lemma PayloadOrder(c: Connect)
    requires c.will.Some? && c.username.Some? && c.password.Some?
    ensures c.Payload() == Str(c.clientId) + Str(c.will.value.topic) + Str(c.will.value.message)
                           + Str(c.username.value) + Str(c.password.value)
  {
    Regroup(Str(c.clientId), Str(c.will.value.topic), Str(c.will.value.message));
  }

  /** The declared length is right for the two known protocol levels, and 12 short otherwise. */
  method ConnectLength(o: Options) returns (len: nat)
    ensures len + (if o.version in {3, 4} then 0 else 12) == |o.Meaning().Body()|
  {
    len := 0;
    if o.version == 3 {
      len := 12;
    } else if o.version == 4 {
      len := 10;
    }
    var n := StrLen(o.clientId);
    len := len + n + 2;
    if o.willFlag != 0 {
      var t := StrLen(o.will.topicName);
      var m := StrLen(o.will.message);
      len := len + t + 2 + m + 2;
    }
    if o.username.Present() {
      n := StrLen(o.username);
      len := len + n + 2;
    }
    if o.password.Present() {
      n := StrLen(o.password);
      len := len + n + 2;
    }
  }

  // Protocol name and level.
  method WriteProtocol(buf: array<Byte>, pos: nat, version: nat) returns (ptr: nat)
    requires pos + |Protocol(version)| <= buf.Length
    modifies buf
    ensures ptr == pos + |Protocol(version)|
    ensures Put(old(buf[..]), pos, Protocol(version), buf[..])
  {
    if version == 4 {
      ptr := WriteCString(buf, pos, MQTT);
      ghost var mid := buf[..];
      ptr := WriteChar(buf, ptr, 4);
      PutPut(old(buf[..]), pos, Str(MQTT), mid, [4], buf[..]);
    } else {
      ptr := WriteCString(buf, pos, MQISDP);
      ghost var mid := buf[..];
      ptr := WriteChar(buf, ptr, 3);
      PutPut(old(buf[..]), pos, Str(MQISDP), mid, [3], buf[..]);
    }
  }

  lemma ModMod(x: nat, n: nat)
    requires n > 0
    ensures x % n % n == x % n
  {
    DivIs(x % n, n, 0, x % n);
  }

  lemma FlagsOf(o: Options)
    ensures o.Meaning().Flags() ==
      o.cleanSession % 2 * 2
      + (if o.willFlag != 0 then 4 + o.will.qos % 4 * 8 + o.will.retained % 2 * 32 else 0)
      + (if o.username.Present() then 128 else 0) + (if o.password.Present() then 64 else 0)
  {
    ModMod(o.cleanSession, 2);
    ModMod(o.will.qos, 4);
    ModMod(o.will.retained, 2);
  }

  method MakeFlags(o: Options) returns (flags: Byte)
    ensures flags == o.Meaning().Flags()
  {
    FlagsOf(o);
    var all: nat := o.cleanSession % 2 * 2;
    if o.willFlag != 0 {
      all := all + 4 + o.will.qos % 4 * 8 + o.will.retained % 2 * 32;
    }
    if o.username.Present() {
      all := all + 128;
    }
    if o.password.Present() {
      all := all + 64;
    }
    flags := all;
  }

  method WriteVariableHead(buf: array<Byte>, pos: nat, version: nat, flags: Byte, keepAlive: U16) returns (ptr: nat)
    requires pos + |Protocol(version)| + 3 <= buf.Length
    modifies buf
    ensures ptr == pos + |Protocol(version)| + 3
    ensures Put(old(buf[..]), pos, Protocol(version) + [flags] + Int16(keepAlive), buf[..])
  {
    ghost var b0, name := buf[..], Protocol(version);
    ptr := WriteProtocol(buf, pos, version);
    ghost var b1 := buf[..];
    ptr := WriteChar(buf, ptr, flags);
    ghost var b2 := buf[..];
    PutPut(b0, pos, name, b1, [flags], b2);
    ptr := WriteInt(buf, ptr, keepAlive);
    PutPut(b0, pos, name + [flags], b2, Int16(keepAlive), buf[..]);
  }

  method WriteWill(buf: array<Byte>, pos: nat, o: Options) returns (ptr: nat)
    requires o.Proper() && pos + |WillBytes(o.Meaning().will)| <= buf.Length
    modifies buf
    ensures ptr == pos + |WillBytes(o.Meaning().will)|
    ensures Put(old(buf[..]), pos, WillBytes(o.Meaning().will), buf[..])
  {
    ptr := pos;
    if o.willFlag != 0 {
      ptr := WriteMQTTString(buf, pos, o.will.topicName);
      ghost var mid := buf[..];
      ptr := WriteMQTTString(buf, ptr, o.will.message);
      PutPut(old(buf[..]), pos, Str(o.will.topicName.Text()), mid, Str(o.will.message.Text()), buf[..]);
    }
  }

  method WriteCredential(buf: array<Byte>, pos: nat, m: MQTTString) returns (ptr: nat)
    requires m.Proper() && pos + |OptStr(Credential(m))| <= buf.Length
    modifies buf
    ensures ptr == pos + |OptStr(Credential(m))|
    ensures Put(old(buf[..]), pos, OptStr(Credential(m)), buf[..])
  {
    ptr := pos;
    if m.Present() {
      ptr := WriteMQTTString(buf, pos, m);
    }
  }

  method WriteIdentity(buf: array<Byte>, pos: nat, o: Options) returns (ptr: nat)
    requires o.Proper() && pos + |Str(o.clientId.Text()) + WillBytes(o.Meaning().will)| <= buf.Length
    modifies buf
    ensures ptr == pos + |Str(o.clientId.Text()) + WillBytes(o.Meaning().will)|
    ensures Put(old(buf[..]), pos, Str(o.clientId.Text()) + WillBytes(o.Meaning().will), buf[..])
  {
    ptr := WriteMQTTString(buf, pos, o.clientId);
    ghost var mid := buf[..];
    ptr := WriteWill(buf, ptr, o);
    PutPut(old(buf[..]), pos, Str(o.clientId.Text()), mid, WillBytes(o.Meaning().will), buf[..]);
  }

  method WriteCredentials(buf: array<Byte>, pos: nat, user: MQTTString, pass: MQTTString) returns (ptr: nat)
    requires user.Proper() && pass.Proper()
    requires pos + |OptStr(Credential(user)) + OptStr(Credential(pass))| <= buf.Length
    modifies buf
    ensures ptr == pos + |OptStr(Credential(user)) + OptStr(Credential(pass))|
    ensures Put(old(buf[..]), pos, OptStr(Credential(user)) + OptStr(Credential(pass)), buf[..])
  {
    ptr := WriteCredential(buf, pos, user);
    ghost var mid := buf[..];
    ptr := WriteCredential(buf, ptr, pass);
    PutPut(old(buf[..]), pos, OptStr(Credential(user)), mid, OptStr(Credential(pass)), buf[..]);
  }

  method WritePayload(buf: array<Byte>, pos: nat, o: Options) returns (ptr: nat)
    requires o.Proper() && pos + |o.Meaning().Payload()| <= buf.Length
    modifies buf
    ensures ptr == pos + |o.Meaning().Payload()|
    ensures Put(old(buf[..]), pos, o.Meaning().Payload(), buf[..])
  {
    ghost var id := Str(o.clientId.Text()) + WillBytes(o.Meaning().will);
    ghost var user, pass := OptStr(Credential(o.username)), OptStr(Credential(o.password));
    ptr := WriteIdentity(buf, pos, o);
    ghost var mid := buf[..];
    ptr := WriteCredentials(buf, ptr, o.username, o.password);
    PutPut(old(buf[..]), pos, id, mid, user + pass, buf[..]);
    Regroup(id, user, pass);
  }

  /** MQTTSerialize_connect writes exactly the packet, or reports a short buffer. */
  method SerializeConnect(buf: array<Byte>, o: Options) returns (rc: int)
    requires o.Proper() && o.version in {3, 4} && |o.Meaning().Body()| <= MAX_REMAINING
    modifies buf
    ensures var c := o.Meaning();
      if PacketLen(|c.Body()|) > buf.Length then
        rc == BUFFER_TOO_SHORT && buf[..] == old(buf[..])
      else
        rc == |c.Bytes()| && Put(old(buf[..]), 0, c.Bytes(), buf[..])
  {
    ghost var c, b0 := o.Meaning(), buf[..];
    var len := ConnectLength(o);
    PacketLenIsSafe(len);
    if PacketLen(len) > buf.Length {
      return BUFFER_TOO_SHORT;
    }
    var header := Header(CONNECT, 0, 0, 0);
    ghost var first := [header] + Rem(len);
    var ptr := WriteHead(buf, header, len);
    ghost var b1 := buf[..];
    var flags := MakeFlags(o);
    ptr := WriteVariableHead(buf, ptr, o.version, flags, o.keepAlive);
    ghost var b2 := buf[..];
    PutPut(b0, 0, first, b1, c.Head(), b2);
    ptr := WritePayload(buf, ptr, o);
    PutPut(b0, 0, first + c.Head(), b2, c.Payload(), buf[..]);
    Regroup(first, c.Head(), c.Payload());
    rc := ptr;
  }

  // memcmp over the shorter of the received name and the expected one.
  predicate SameStart(protocol: seq<Byte>, name: seq<Byte>) {
    var n := if |name| < |protocol| then |name| else |protocol|;
    protocol[..n] == name[..n]
  }

  // MQTTPacket_checkVersion
  predicate CheckVersion(protocol: seq<Byte>, version: nat) {
    (version == 3 && SameStart(protocol, MQISDP)) || (version == 4 && SameStart(protocol, MQTT))
  }

  lemma HeadParts(buf: seq<Byte>, pos: nat, c: Connect)
    requires c.Valid() && At(buf, pos, c.Head())
    ensures var name := if c.version == 4 then MQTT else MQISDP;
      var at := pos + 2 + |name|;
      && at + 4 == pos + |c.Head()| <= |buf|
      && IntAt(buf, pos) == |name| && buf[pos + 2..at] == name
      && buf[at] == c.version && buf[at + 1] == c.Flags() && IntAt(buf, at + 2) == c.keepAlive
  {
    var name := if c.version == 4 then MQTT else MQISDP;
    var at := pos + 2 + |name|;
    var level: seq<Byte> := [c.version];
    AtSplit(buf, pos, Str(name) + level + [c.Flags()], Int16(c.keepAlive));
    AtSplit(buf, pos, Str(name) + level, [c.Flags()]);
    AtSplit(buf, pos, Str(name), level);
    StringRoundTrip(buf, pos, name);
    IntRoundTrip(buf, at + 2, c.keepAlive);
    assert buf[at] == level[0] && buf[at + 1] == [c.Flags()][0];
  }

  // The string of an optional part that is present, and the place after it.
  lemma OptPart(buf: seq<Byte>, pos: nat, s: Option<seq<Byte>>, rest: seq<Byte>)
    requires At(buf, pos, OptStr(s) + rest) && Fits(s)
    ensures s.Some? ==>
      && pos + 2 + |s.value| <= |buf| && IntAt(buf, pos) == |s.value|
      && buf[pos + 2..pos + 2 + |s.value|] == s.value
    ensures At(buf, pos + |OptStr(s)|, rest)
  {
    AtSplit(buf, pos, OptStr(s), rest);
    if s.Some? {
      StringRoundTrip(buf, pos, s.value);
    }
  }

  // The will's two strings and the place after them.
  lemma WillPart(buf: seq<Byte>, pos: nat, w: Will, rest: seq<Byte>)
    requires |w.topic| < 0x1_0000 && |w.message| < 0x1_0000
    requires At(buf, pos, WillBytes(Some(w)) + rest)
    ensures var mid := pos + 2 + |w.topic|;
      var next := mid + 2 + |w.message|;
      && next <= |buf|
      && IntAt(buf, pos) == |w.topic| && buf[pos + 2..mid] == w.topic
      && IntAt(buf, mid) == |w.message| && buf[mid + 2..next] == w.message
      && At(buf, next, rest)
  {
    AtSplit(buf, pos, WillBytes(Some(w)), rest);
    AtSplit(buf, pos, Str(w.topic), Str(w.message));
    StringRoundTrip(buf, pos, w.topic);
    StringRoundTrip(buf, pos + 2 + |w.topic|, w.message);
  }

  // The credentials, which end the packet.
  method ReadCredentials(buf: seq<Byte>, pos: nat, end: nat, userFlag: bool, passFlag: bool, ghost c: Connect)
    returns (ok: bool, username: Option<seq<Byte>>, password: Option<seq<Byte>>)
    requires Fits(c.username) && Fits(c.password)
    requires At(buf, pos, OptStr(c.username) + OptStr(c.password))
    requires end == pos + |OptStr(c.username) + OptStr(c.password)|
    requires userFlag == c.username.Some? && passFlag == c.password.Some?
    ensures ok <==> c.Acceptable()
    ensures ok ==> username == c.username && password == c.password
  {
    ok, username, password := false, None, None;
    OptPart(buf, pos, c.username, OptStr(c.password));
    if userFlag {
      var s, cur;
      if end - pos < 3 {
        return;
      }
      ok, s, cur := ReadLenString(buf, pos, end);
      if !ok {
        return;
      }
      username := Some(s);
      if passFlag {
        assert OptStr(c.password) == OptStr(c.password) + [];
        OptPart(buf, cur, c.password, []);
        ok := false;
        if end - cur < 3 {
          return;
        }
        ok, s, cur := ReadLenString(buf, cur, end);
        if !ok {
          return;
        }
        password := Some(s);
      }
    } else if passFlag {
      return;
    }
    ok := true;
  }

  method ReadWill(buf: seq<Byte>, pos: nat, end: nat, qos: nat, retained: nat, ghost w: Will, ghost rest: seq<Byte>)
    returns (ok: bool, will: Will, cur: nat)
    requires |w.topic| < 0x1_0000 && |w.message| < 0x1_0000 && qos == w.qos && retained == w.retained
    requires At(buf, pos, WillBytes(Some(w)) + rest) && end == pos + |WillBytes(Some(w)) + rest|
    ensures ok && will == w && cur == pos + |WillBytes(Some(w))|
  {
    WillPart(buf, pos, w, rest);
    will := Will([], [], 0, 0);
    var topic, message;
    ok, topic, cur := ReadLenString(buf, pos, end);
    if !ok {
      return;
    }
    ok, message, cur := ReadLenString(buf, cur, end);
    if !ok {
      return;
    }
    will := Will(topic, message, qos, retained);
  }

  lemma PayloadParts(buf: seq<Byte>, pos: nat, c: Connect)
    requires c.Valid() && At(buf, pos, c.Payload())
    ensures var creds := OptStr(c.username) + OptStr(c.password);
      var name := pos + 2 + |c.clientId|;
      var next := name + |WillBytes(c.will)|;
      && name <= next <= pos + |c.Payload()| == next + |creds| <= |buf|
      && IntAt(buf, pos) == |c.clientId| && buf[pos + 2..name] == c.clientId
      && At(buf, name, WillBytes(c.will) + creds) && At(buf, next, creds)
  {
    var will, creds := WillBytes(c.will), OptStr(c.username) + OptStr(c.password);
    Regroup(Str(c.clientId) + will, OptStr(c.username), OptStr(c.password));
    Regroup(Str(c.clientId), will, creds);
    AtSplit(buf, pos, Str(c.clientId), will + creds);
    AtSplit(buf, pos + 2 + |c.clientId|, will, creds);
    StringRoundTrip(buf, pos, c.clientId);
  }

  // Everything after the keep-alive, with the flags already taken apart.
  method ReadPayload(buf: seq<Byte>, pos: nat, end: nat, willFlag: bool, qos: nat, retained: nat,
                     userFlag: bool, passFlag: bool, ghost c: Connect)
    returns (ok: bool, clientId: seq<Byte>, will: Option<Will>, username: Option<seq<Byte>>, password: Option<seq<Byte>>)
    requires c.Valid() && At(buf, pos, c.Payload()) && end == pos + |c.Payload()|
    requires willFlag == c.will.Some? && userFlag == c.username.Some? && passFlag == c.password.Some?
    requires willFlag ==> qos == c.will.value.qos && retained == c.will.value.retained
    ensures ok <==> c.Acceptable()
    ensures ok ==> clientId == c.clientId && will == c.will && username == c.username && password == c.password
  {
    PayloadParts(buf, pos, c);
    clientId, will, username, password := [], None, None, None;
    var cur;
    ok, clientId, cur := ReadLenString(buf, pos, end);
    if !ok {
      return;
    }
    if willFlag {
      var w;
      ok, w, cur := ReadWill(buf, cur, end, qos, retained, c.will.value, OptStr(c.username) + OptStr(c.password));
      if !ok {
        return;
      }
      will := Some(w);
    }
    ok, username, password := ReadCredentials(buf, cur, end, userFlag, passFlag, c);
  }

  // Protocol name and level, flags and keep-alive; false when the version is not recognised.
  method ReadHead(buf: seq<Byte>, pos: nat, end: nat, ghost c: Connect)
    returns (ok: bool, flags: Byte, keepAlive: nat, cur: nat)
    requires c.Valid() && At(buf, pos, c.Head()) && pos + |c.Head()| <= end <= |buf|
    ensures ok && flags == c.Flags() && keepAlive == c.keepAlive && cur == pos + |c.Head()|
  {
    HeadParts(buf, pos, c);
    flags, keepAlive := 0, 0;
    var protocol;
    ok, protocol, cur := ReadLenString(buf, pos, end);
    if !ok || cur > end {
      ok := false;
      return;
    }
    var version := buf[cur];
    ok := CheckVersion(protocol, version);
    if !ok {
      return;
    }
    flags := buf[cur + 1];
    keepAlive, cur := ReadInt(buf, cur + 2);
  }

  // The bit fields of the flags byte.
  method SplitFlags(flags: Byte, ghost c: Connect)
    returns (clean: nat, willFlag: bool, qos: nat, retained: nat, userFlag: bool, passFlag: bool)
    requires c.Valid() && flags == c.Flags()
    ensures clean == c.cleanSession
    ensures willFlag == c.will.Some? && userFlag == c.username.Some? && passFlag == c.password.Some?
    ensures willFlag ==> qos == c.will.value.qos && retained == c.will.value.retained
  {
    FlagsRoundTrip(c.cleanSession, c.will, c.username.Some?, c.password.Some?);
    clean, willFlag, qos, retained := flags / 2 % 2, flags / 4 % 2 == 1, flags / 8 % 4, flags / 32 % 2;
    userFlag, passFlag := flags / 128 == 1, flags / 64 % 2 == 1;
  }

  // Everything after the first byte.
  method ReadRest(buf: seq<Byte>, end: nat, ghost c: Connect)
    returns (rc: int, cleanSession: nat, keepAlive: nat, clientId: seq<Byte>, will: Option<Will>,
             username: Option<seq<Byte>>, password: Option<seq<Byte>>)
    requires c.Valid() && Framed(buf, Header(CONNECT, 0, 0, 0), c.Body()) && end == FrameLen(|c.Body()|)
    ensures rc == 0 || rc == 1
    ensures rc == 1 <==> c.Acceptable()
    ensures rc == 1 ==>
      && cleanSession == c.cleanSession && keepAlive == c.keepAlive && clientId == c.clientId
      && will == c.will && username == c.username && password == c.password
  {
    var used, myLen := ReadLength(buf, Header(CONNECT, 0, 0, 0), c.Body());
    AtSplit(buf, 1 + used, c.Head(), c.Payload());
    rc, cleanSession, clientId, will, username, password := 0, 0, [], None, None, None;
    var ok, flags, cur;
    ok, flags, keepAlive, cur := ReadHead(buf, 1 + used, end, c);
    if !ok {
      return;
    }
    var willFlag, qos, retained, userFlag, passFlag;
    cleanSession, willFlag, qos, retained, userFlag, passFlag := SplitFlags(flags, c);
    ok, clientId, will, username, password :=
      ReadPayload(buf, cur, end, willFlag, qos, retained, userFlag, passFlag, c);
    if ok {
      rc := 1;
    }
  }

  lemma ConnectHeader()
    ensures Kind(Header(CONNECT, 0, 0, 0)) == CONNECT
  {
  }

  /** MQTTDeserialize_connect on a serialized packet succeeds exactly when the credentials are
      acceptable, and then recovers everything the client asked for. */
  method DeserializeConnect(buf: seq<Byte>, len: nat, ghost c: Connect)
    returns (rc: int, cleanSession: nat, keepAlive: nat, clientId: seq<Byte>, will: Option<Will>,
             username: Option<seq<Byte>>, password: Option<seq<Byte>>)
    requires c.Valid() && Framed(buf, Header(CONNECT, 0, 0, 0), c.Body()) && len == FrameLen(|c.Body()|)
    ensures rc == 0 || rc == 1
    ensures rc == 1 <==> c.Acceptable()
    ensures rc == 1 ==>
      && cleanSession == c.cleanSession && keepAlive == c.keepAlive && clientId == c.clientId
      && will == c.will && username == c.username && password == c.password
  {
    rc, cleanSession, keepAlive, clientId, will, username, password := 0, 0, 0, [], None, None, None;
    ConnectHeader();
    var header := buf[0];
    if Kind(header) == CONNECT {
      rc, cleanSession, keepAlive, clientId, will, username, password := ReadRest(buf, len, c);
    }
  }

  /** A client that gives a username and an empty password is turned away. */
  lemma EmptyPasswordRejected()
    ensures var c := Connect(4, [97], 60, 1, None, Some([97]), Some([]));
      c.Valid() && !c.Acceptable()
  {
  }

  /** Serializing and deserializing in one: the server sees exactly what the client's options
      mean, if and only if the credentials are acceptable. The protocol level is checked but not
      handed on, so the result leaves it out. */
  method RoundTrip(buf: array<Byte>, o: Options) returns (rc: int, c: Connect)
    requires o.Proper() && o.Meaning().Valid()
    modifies buf
    ensures if PacketLen(|o.Meaning().Body()|) > buf.Length then rc == BUFFER_TOO_SHORT
            else rc == if o.Meaning().Acceptable() then 1 else 0
    ensures rc == 1 ==> c == o.Meaning().(version := 0)
    // Field by field:
    ensures rc == 1 ==>
      && c.clientId == o.clientId.Text() && c.keepAlive == o.keepAlive && c.cleanSession == o.cleanSession % 2
      && (c.will.Some? <==> o.willFlag != 0) && (c.username.Some? <==> o.username.Present())
      && (c.password.Some? <==> o.password.Present())
    ensures rc == 1 && o.willFlag != 0 ==>
      && c.will.value.topic == o.will.topicName.Text() && c.will.value.message == o.will.message.Text()
      && c.will.value.qos == o.will.qos % 4 && c.will.value.retained == o.will.retained % 2
    ensures rc == 1 && o.username.Present() ==> c.username.value == o.username.Text()
    ensures rc == 1 && o.password.Present() ==> c.password.value == o.password.Text()
    // The server accepts these credentials and no others:
    ensures PacketLen(|o.Meaning().Body()|) <= buf.Length ==>
      (rc == 1 <==>
        || (!o.username.Present() && !o.password.Present())
        || (o.username.Present() && (if o.password.Present() then o.password else o.username).Text() != []))
  {
    ghost var want := o.Meaning();
    c := Connect(0, [], 0, 0, None, None, None);
    rc := SerializeConnect(buf, o);
    if rc <= 0 {
      return;
    }
    FramedIsPacket(buf[..], Header(CONNECT, 0, 0, 0), want.Body());
    var clean, alive, id, will, user, pass;
    rc, clean, alive, id, will, user, pass := DeserializeConnect(buf[..], rc, want);
    if rc == 1 {
      c := Connect(0, id, alive, clean, will, user, pass);
    }
  }
}
