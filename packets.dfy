/** The control packets of MQTT 3.1.1 that the client builds and checks, as byte
    sequences, with reference parsers (what a broker reads) to check them against. */
module Packets {
  import opened Bits
  import opened Wire

  /** The failures the client can raise. */
  datatype Error =
    | EndOfStream        // a read found the stream closed (`OSError(-1)`)
    | Truncated          // a read came back short and was indexed past its end (`IndexError`)
    | ProtocolViolation  // an `assert` on data sent by the peer failed
    | Rejected(code: Byte) // `MQTTException` carrying the broker's return code
    | NoCallback         // a PUBLISH arrived while no callback was registered
    | QosUnsupported     // QoS 2, which the client rejects with `assert 0`
    | BadLength          // a received PUBLISH whose Remaining Length is too small for its own fields

  datatype Result<+T> = Ok(value: T) | Err(error: Error)

  /** The last-will message registered with `set_last_will`. */
  datatype LastWill = LastWill(topic: seq<Byte>, msg: seq<Byte>, qos: nat, retain: bool)

  datatype Credentials = Credentials(user: seq<Byte>, password: seq<Byte>)

  /** What a broker reads from a CONNECT packet. */
  datatype ConnectRequest = ConnectRequest(
    clientId: seq<Byte>, clean: bool, keepalive: nat, will: Option<LastWill>,
    user: Option<seq<Byte>>, password: Option<seq<Byte>>)

  /** What a broker reads from a SUBSCRIBE packet with one topic filter. */
  datatype Subscription = Subscription(pid: nat, topic: seq<Byte>, qos: Byte)

  /** "MQTT" */
  const ProtocolName: seq<Byte> := [0x4D, 0x51, 0x54, 0x54]
  const ProtocolLevel: Byte := 4

  const Ping: seq<Byte> := [0xC0, 0x00]
  const Disconnect: seq<Byte> := [0xE0, 0x00]
  const PingResp: seq<Byte> := [0xD0, 0x00]

  function Bit(b: bool): Byte
  {
    if b then 1 else 0
  }

  predicate WillOk(will: Option<LastWill>)
  {
    will.Some? ==> |will.value.topic| < 0x1_0000 && |will.value.msg| < 0x1_0000 && will.value.qos <= 2
  }

  predicate LoginOk(login: Option<Credentials>)
  {
    login.Some? ==> |login.value.user| < 0x1_0000 && |login.value.password| < 0x1_0000
  }

  /** The Connect Flags byte of section 3.1.2.3 of MQTT 3.1.1. */
  function ConnectFlags(clean: bool, will: Option<LastWill>, login: bool): (f: Byte)
    requires will.Some? ==> will.value.qos <= 2
    ensures f % 2 == 0
    ensures f / 2 % 2 == Bit(clean)
    ensures f / 4 % 2 == Bit(will.Some?)
    ensures f / 8 % 4 == if will.Some? then will.value.qos else 0
    ensures f / 32 % 2 == Bit(will.Some? && will.value.retain)
    ensures f / 64 == if login then 3 else 0
  {
    var w := Bit(will.Some?);
    var q := if will.Some? then will.value.qos else 0;
    var r := Bit(will.Some? && will.value.retain);
    var l := if login then 3 else 0;
    FlagFields(Bit(clean), w, q, r, l);
    2 * Bit(clean) + 4 * w + 8 * q + 32 * r + 64 * l
  }

  /** Reading back the bit fields of a flags byte assembled from its parts. */
  lemma FlagFields(c: nat, w: nat, q: nat, r: nat, l: nat)
    requires c < 2 && w < 2 && q < 4 && r < 2 && l < 4
    ensures var f := 2 * c + 4 * w + 8 * q + 32 * r + 64 * l;
      f % 2 == 0 && f / 2 % 2 == c && f / 4 % 2 == w && f / 8 % 4 == q && f / 32 % 2 == r && f / 64 == l
  {
    var f := 2 * c + 4 * w + 8 * q + 32 * r + 64 * l;
    ModOfSplit(f, c + 2 * w + 4 * q + 16 * r + 32 * l, 2, 0);
    ModOfSplit(c + 2 * w + 4 * q + 16 * r + 32 * l, w + 2 * q + 8 * r + 16 * l, 2, c);
    ModOfSplit(f, w + 2 * q + 8 * r + 16 * l, 4, 2 * c);
    ModOfSplit(w + 2 * q + 8 * r + 16 * l, q + 4 * r + 8 * l, 2, w);
    ModOfSplit(f, q + 4 * r + 8 * l, 8, 2 * c + 4 * w);
    ModOfSplit(q + 4 * r + 8 * l, r + 2 * l, 4, q);
    ModOfSplit(f, r + 2 * l, 32, 2 * c + 4 * w + 8 * q);
    ModOfSplit(r + 2 * l, l, 2, r);
    ModOfSplit(f, l, 64, 2 * c + 4 * w + 8 * q + 32 * r);
  }

  /** Protocol name, level, flags and keep-alive (section 3.1.2 of MQTT 3.1.1). */
  function ConnectHeader(flags: Byte, keepalive: nat): (r: seq<Byte>)
    requires keepalive < 0x1_0000
    ensures |r| == 10
  {
    Str(ProtocolName) + [ProtocolLevel, flags] + U16(keepalive)
  }

  /** Client identifier, then the will topic and message, then user name and password
      (section 3.1.3 of MQTT 3.1.1). */
  function ConnectPayload(clientId: seq<Byte>, will: Option<LastWill>, login: Option<Credentials>): (r: seq<Byte>)
    requires |clientId| < 0x1_0000 && WillOk(will) && LoginOk(login)
  {
    Str(clientId)
    + (if will.Some? then Str(will.value.topic) + Str(will.value.msg) else [])
    + (if login.Some? then Str(login.value.user) + Str(login.value.password) else [])
  }

  function ConnectBody(clientId: seq<Byte>, clean: bool, keepalive: nat, will: Option<LastWill>, login: Option<Credentials>): seq<Byte>
    requires |clientId| < 0x1_0000 && WillOk(will) && LoginOk(login) && keepalive < 0x1_0000
  {
    ConnectHeader(ConnectFlags(clean, will, login.Some?), keepalive) + ConnectPayload(clientId, will, login)
  }

  /** The CONNECT packet: type byte 0x10, Remaining Length, then the body. */
  function ConnectPacket(clientId: seq<Byte>, clean: bool, keepalive: nat, will: Option<LastWill>, login: Option<Credentials>): seq<Byte>
    requires |clientId| < 0x1_0000 && WillOk(will) && LoginOk(login) && keepalive < 0x1_0000
  {
    var body := ConnectBody(clientId, clean, keepalive, will, login);
    [0x10] + EncodeLen(|body|) + body
  }

  function ParseOptStr(present: bool, b: seq<Byte>): (r: Option<(Option<seq<Byte>>, nat)>)
    ensures r.Some? ==> r.value.1 <= |b|
  {
    if !present then Some((None, 0))
    else match ParseStr(b)
      case None => None
      case Some((s, n)) => Some((Some(s), n))
  }

  function ParseWill(flags: Byte, b: seq<Byte>): (r: Option<(Option<LastWill>, nat)>)
    ensures r.Some? ==> r.value.1 <= |b|
  {
    if flags / 4 % 2 == 0 then Some((None, 0))
    else match ParseStr(b)
      case None => None
      case Some((topic, n1)) =>
        match ParseStr(b[n1..])
        case None => None
        case Some((msg, n2)) =>
          Some((Some(LastWill(topic, msg, flags / 8 % 4, flags / 32 % 2 == 1)), n1 + n2))
  }

  /** The payload of CONNECT: client identifier, then what the flags announce. */
  function ParseConnectPayload(flags: Byte, keepalive: nat, b: seq<Byte>): Option<ConnectRequest>
  {
    match ParseStr(b)
    case None => None
    case Some((clientId, n)) => ParseWillAndLogin(flags, keepalive, clientId, b[n..])
  }

  function ParseWillAndLogin(flags: Byte, keepalive: nat, clientId: seq<Byte>, b: seq<Byte>): Option<ConnectRequest>
  {
    match ParseWill(flags, b)
    case None => None
    case Some((will, n)) => ParseLogin(flags, keepalive, clientId, will, b[n..])
  }

  function ParseLogin(flags: Byte, keepalive: nat, clientId: seq<Byte>, will: Option<LastWill>, b: seq<Byte>): Option<ConnectRequest>
  {
    match ParseOptStr(flags / 128 % 2 == 1, b)
    case None => None
    case Some((user, n)) => ParsePassword(flags, keepalive, clientId, will, user, b[n..])
  }

  /** The password field, which must end the packet. */
  function ParsePassword(flags: Byte, keepalive: nat, clientId: seq<Byte>, will: Option<LastWill>,
                         user: Option<seq<Byte>>, b: seq<Byte>): Option<ConnectRequest>
  {
    match ParseOptStr(flags / 64 % 2 == 1, b)
    case None => None
    case Some((password, n)) =>
      if n != |b| then None
      else Some(ConnectRequest(clientId, flags / 2 % 2 == 1, keepalive, will, user, password))
  }

  function ParseConnectBody(body: seq<Byte>): Option<ConnectRequest>
  {
    match ParseStr(body)
    case None => None
    case Some((name, n)) =>
      if name != ProtocolName || |body| < n + 4 || body[n] != ProtocolLevel then None
      else ParseConnectPayload(body[n + 1], U16Value(body[n + 2..n + 4]), body[n + 4..])
  }

  /** A broker's reading of a CONNECT packet; None unless the Remaining Length covers
      exactly the bytes that follow it. */
  function ParseConnect(b: seq<Byte>): Option<ConnectRequest>
  {
    if |b| == 0 || b[0] != 0x10 then None
    else match DecodeLen(b, 1)
      case None => None
      case Some((sz, k)) => if |b| != 1 + k + sz then None else ParseConnectBody(b[1 + k..])
  }

  /** The CONNACK check of `connect`, on the four bytes read after sending CONNECT:
      Ok(session present) for an accepting CONNACK, the broker's return code for a
      refusing one. */
  function ConnAck(resp: seq<Byte>): (r: Result<nat>)
    ensures r.Ok? <==> |resp| >= 4 && resp[..2] == [0x20, 0x02] && resp[3] == 0
    ensures r.Ok? ==> r.value == resp[2] % 2
    ensures r.Err? && r.error.Rejected? <==> |resp| >= 4 && resp[..2] == [0x20, 0x02] && resp[3] != 0
    ensures r.Err? && r.error.Rejected? ==> r.error.code == resp[3]
    ensures r.Err? ==> r.error.Rejected? || r.error == ProtocolViolation || r.error == Truncated
  {
    if |resp| < 1 then Err(Truncated)
    else if resp[0] != 0x20 then Err(ProtocolViolation)
    else if |resp| < 2 then Err(Truncated)
    else if resp[1] != 0x02 then Err(ProtocolViolation)
    else if |resp| < 4 then Err(Truncated)
    else if resp[3] != 0 then Err(Rejected(resp[3]))
    else Ok(resp[2] % 2)
  }

  /** The CONNACK a broker sends (section 3.2 of MQTT 3.1.1). */
  function ConnAckPacket(sessionPresent: bool, code: Byte): seq<Byte>
  {
    [0x20, 0x02, Bit(sessionPresent), code]
  }

  /** The packet type of a fixed header's first byte: its high four bits. */
  function Kind(op: Byte): nat
  {
    op / 16
  }

  /** The QoS level carried in bits 1 and 2 of a PUBLISH type byte. */
  function QosOf(op: Byte): nat
  {
    op / 2 % 4
  }

  /** The first byte of PUBLISH: `0x30 | qos << 1 | retain`. */
  function PublishHeader(qos: nat, retain: bool): Byte
    requires qos < 128
  {
    assert Pow2(1) == 2 && Pow2(8) == 256;
    OrBound(Shl(qos, 1), Bit(retain), 8);
    OrBound(0x30, Or(Shl(qos, 1), Bit(retain)), 8);
    Or(0x30, Or(Shl(qos, 1), Bit(retain)))
  }

  /** For the QoS levels 0 to 3 the flags fill the low four bits of the PUBLISH type byte
      without touching the type: type 3, DUP clear, the QoS bits and the RETAIN bit
      (section 3.3.1 of MQTT 3.1.1). */
  lemma PublishHeaderFields(qos: nat, retain: bool)
    requires qos < 4
    ensures PublishHeader(qos, retain) == 0x30 + 2 * qos + Bit(retain)
    ensures Kind(PublishHeader(qos, retain)) == 3 && QosOf(PublishHeader(qos, retain)) == qos
    ensures PublishHeader(qos, retain) / 8 % 2 == 0 && PublishHeader(qos, retain) % 2 == Bit(retain)
  {
    var h := 0x30 + 2 * qos + Bit(retain);
    PublishHeaderValue(qos, retain);
    ModOfSplit(h, 3, 16, 2 * qos + Bit(retain));
    ModOfSplit(h, 24 + qos, 2, Bit(retain));
    ModOfSplit(24 + qos, 6, 4, qos);
    ModOfSplit(h, 6, 8, 2 * qos + Bit(retain));
  }

  lemma PublishHeaderValue(qos: nat, retain: bool)
    requires qos < 4
    ensures PublishHeader(qos, retain) == 0x30 + 2 * qos + Bit(retain)
  {
    var low := 2 * qos + Bit(retain);
    assert Pow2(1) == 2 && Pow2(3) == 8;
    OrShiftedLow(qos, 1, Bit(retain));
    assert Shl(6, 3) == 0x30;
    OrComm(0x30, low);
    OrShifted(low, 6, 3);
  }

  /** Topic, the packet identifier when QoS > 0, then the application message
      (sections 3.3.2 and 3.3.3 of MQTT 3.1.1). */
  function PublishBody(topic: seq<Byte>, msg: seq<Byte>, qos: nat, pid: nat): (r: seq<Byte>)
    requires |topic| < 0x1_0000 && pid < 0x1_0000
    ensures |r| == 2 + |topic| + |msg| + (if qos > 0 then 2 else 0)
  {
    Str(topic) + (if qos > 0 then U16(pid) else []) + msg
  }

  /** What follows the type byte of PUBLISH: the Remaining Length, then the body. */
  function PublishFrame(topic: seq<Byte>, msg: seq<Byte>, qos: nat, pid: nat): seq<Byte>
    requires |topic| < 0x1_0000 && pid < 0x1_0000
  {
    var body := PublishBody(topic, msg, qos, pid);
    EncodeLen(|body|) + body
  }

  function PublishPacket(topic: seq<Byte>, msg: seq<Byte>, retain: bool, qos: nat, pid: nat): seq<Byte>
    requires |topic| < 0x1_0000 && pid < 0x1_0000 && qos < 128
  {
    [PublishHeader(qos, retain)] + PublishFrame(topic, msg, qos, pid)
  }

  /** PUBACK for packet identifier `pid` (section 3.4 of MQTT 3.1.1). */
  function PubAck(pid: nat): (r: seq<Byte>)
    requires pid < 0x1_0000
    ensures |r| == 4
  {
    [0x40, 0x02] + U16(pid)
  }

  /** SUBSCRIBE as written by `subscribe`: the Remaining Length `5 + |topic|` packed as a
      single byte ("!B"). */
  function SubscribePacketAsWritten(pid: nat, topic: seq<Byte>, qos: Byte): seq<Byte>
    requires pid < 0x1_0000 && 5 + |topic| < 256
  {
    [0x82, 5 + |topic|] + U16(pid) + Str(topic) + [qos]
  }

  function SubscribeBody(pid: nat, topic: seq<Byte>, qos: Byte): (r: seq<Byte>)
    requires pid < 0x1_0000 && |topic| < 0x1_0000
    ensures |r| == 5 + |topic|
  {
    U16(pid) + Str(topic) + [qos]
  }

  /** SUBSCRIBE with its Remaining Length encoded as section 2.2.3 of MQTT 3.1.1 requires. */
  function SubscribePacket(pid: nat, topic: seq<Byte>, qos: Byte): seq<Byte>
    requires pid < 0x1_0000 && |topic| < 0x1_0000
  {
    var body := SubscribeBody(pid, topic, qos);
    [0x82] + EncodeLen(|body|) + body
  }

  /** A broker's reading of a SUBSCRIBE with one topic filter (section 3.8 of MQTT 3.1.1); None unless the
      Remaining Length covers exactly the bytes that follow it. */
  function ParseSubscribe(b: seq<Byte>): Option<Subscription>
  {
    if |b| == 0 || b[0] != 0x82 then None
    else match DecodeLen(b, 1)
      case None => None
      case Some((sz, k)) =>
        if |b| != 1 + k + sz || sz < 2 then None
        else
          var body := b[1 + k..];
          match ParseStr(body[2..])
          case None => None
          case Some((topic, n)) =>
            if |body| != 2 + n + 1 then None
            else Some(Subscription(U16Value(body), topic, body[2 + n]))
  }

  /** The SUBACK check of `subscribe`, on the four bytes read after its 0x90 type byte:
      the identifier must be the one sent, and 0x80 is a refusal. */
  function SubAck(resp: seq<Byte>, pid: nat): (r: Result<()>)
    requires pid < 0x1_0000
    ensures r.Ok? <==> |resp| >= 4 && resp[1..3] == U16(pid) && resp[3] != 0x80
    ensures r == Err(Rejected(0x80)) <==> |resp| >= 4 && resp[1..3] == U16(pid) && resp[3] == 0x80
    ensures r.Err? ==> r.error == Rejected(0x80) || r.error == ProtocolViolation || r.error == Truncated
  {
    var sent := U16(pid);
    if |resp| < 2 then Err(Truncated)
    else if resp[1] != sent[0] then Err(ProtocolViolation)
    else if |resp| < 3 then Err(Truncated)
    else if resp[2] != sent[1] then Err(ProtocolViolation)
    else if |resp| < 4 then Err(Truncated)
    else if resp[3] == 0x80 then Err(Rejected(0x80))
    else Ok(())
  }

  /** The SUBACK a broker sends for one topic filter (section 3.9 of MQTT 3.1.1). */
  function SubAckPacket(pid: nat, granted: Byte): seq<Byte>
    requires pid < 0x1_0000
  {
    [0x90, 0x03] + U16(pid) + [granted]
  }

  /** The number of bytes after the fixed header of CONNECT, as `connect` adds it up:
      10 for the variable header, then 2 plus the length of every string sent. */
  lemma ConnectLength(clientId: seq<Byte>, clean: bool, keepalive: nat, will: Option<LastWill>, login: Option<Credentials>)
    requires |clientId| < 0x1_0000 && WillOk(will) && LoginOk(login) && keepalive < 0x1_0000
    ensures |ConnectBody(clientId, clean, keepalive, will, login)|
      == 10 + 2 + |clientId|
         + (if will.Some? then 2 + |will.value.topic| + 2 + |will.value.msg| else 0)
         + (if login.Some? then 2 + |login.value.user| + 2 + |login.value.password| else 0)
  {
  }

  lemma WillRoundTrip(clean: bool, will: Option<LastWill>, login: bool, rest: seq<Byte>)
    requires WillOk(will)
    ensures var w := if will.Some? then Str(will.value.topic) + Str(will.value.msg) else [];
      ParseWill(ConnectFlags(clean, will, login), w + rest) == Some((will, |w|))
  {
    if will.Some? {
      var t, m := will.value.topic, will.value.msg;
      var b := Str(t) + Str(m) + rest;
      assert b == Str(t) + (Str(m) + rest);
      StrRoundTrip(t, Str(m) + rest);
      assert b[2 + |t|..] == Str(m) + rest;
      StrRoundTrip(m, rest);
    }
  }

  lemma OptStrRoundTrip(present: bool, s: seq<Byte>, rest: seq<Byte>)
    requires |s| < 0x1_0000
    ensures ParseOptStr(present, (if present then Str(s) else []) + rest)
         == Some((if present then Some(s) else None, if present then 2 + |s| else 0))
  {
    if present {
      StrRoundTrip(s, rest);
    } else {
      assert [] + rest == rest;
    }
  }

  /** A packet framed as type byte, Remaining Length and body: the Remaining Length
      decodes to the size of the body, which follows it to the end. */
  lemma Framed(h: Byte, body: seq<Byte>)
    ensures var pkt := [h] + EncodeLen(|body|) + body; var k := |EncodeLen(|body|)|;
      pkt[0] == h && DecodeLen(pkt, 1) == Some((|body|, k)) && |pkt| == 1 + k + |body| && pkt[1 + k..] == body
  {
    var pkt := [h] + EncodeLen(|body|) + body;
    assert pkt[1..1 + |EncodeLen(|body|)|] == EncodeLen(|body|);
    DecodeEncodeLen(|body|, pkt, 1);
  }

  lemma ConnectBodyRoundTrip(clientId: seq<Byte>, clean: bool, keepalive: nat, will: Option<LastWill>, login: Option<Credentials>)
    requires |clientId| < 0x1_0000 && WillOk(will) && LoginOk(login) && keepalive < 0x1_0000
    ensures ParseConnectBody(ConnectBody(clientId, clean, keepalive, will, login))
         == ParseConnectPayload(ConnectFlags(clean, will, login.Some?), keepalive, ConnectPayload(clientId, will, login))
  {
    var flags := ConnectFlags(clean, will, login.Some?);
    var body := ConnectBody(clientId, clean, keepalive, will, login);
    var payload := ConnectPayload(clientId, will, login);
    assert body == Str(ProtocolName) + ([ProtocolLevel, flags] + U16(keepalive) + payload);
    StrRoundTrip(ProtocolName, [ProtocolLevel, flags] + U16(keepalive) + payload);
    assert body[6] == ProtocolLevel && body[7] == flags;
    assert body[8..10] == U16(keepalive);
    assert body[10..] == payload;
  }

  lemma ConnectPayloadRoundTrip(clientId: seq<Byte>, clean: bool, keepalive: nat, will: Option<LastWill>, login: Option<Credentials>)
    requires |clientId| < 0x1_0000 && WillOk(will) && LoginOk(login) && keepalive < 0x1_0000
    ensures ParseConnectPayload(ConnectFlags(clean, will, login.Some?), keepalive, ConnectPayload(clientId, will, login))
         == Some(ConnectRequest(clientId, clean, keepalive, will,
                   if login.Some? then Some(login.value.user) else None,
                   if login.Some? then Some(login.value.password) else None))
  {
    var flags := ConnectFlags(clean, will, login.Some?);
    var w := if will.Some? then Str(will.value.topic) + Str(will.value.msg) else [];
    var l := if login.Some? then Str(login.value.user) + Str(login.value.password) else [];
    var payload := ConnectPayload(clientId, will, login);
    assert payload == Str(clientId) + (w + l);
    StrRoundTrip(clientId, w + l);
    assert payload[2 + |clientId|..] == w + l;
    WillRoundTrip(clean, will, login.Some?, l);
    assert (w + l)[|w|..] == l;
    LoginRoundTrip(clean, keepalive, clientId, will, login);
  }

  lemma LoginRoundTrip(clean: bool, keepalive: nat, clientId: seq<Byte>, will: Option<LastWill>, login: Option<Credentials>)
    requires WillOk(will) && LoginOk(login)
    ensures var flags := ConnectFlags(clean, will, login.Some?);
      ParseLogin(flags, keepalive, clientId, will,
                 if login.Some? then Str(login.value.user) + Str(login.value.password) else [])
      == Some(ConnectRequest(clientId, clean, keepalive, will,
                if login.Some? then Some(login.value.user) else None,
                if login.Some? then Some(login.value.password) else None))
  {
    var flags := ConnectFlags(clean, will, login.Some?);
    assert (flags / 128 % 2 == 1) == login.Some? && (flags / 64 % 2 == 1) == login.Some?;
    if login.Some? {
      var u, p := login.value.user, login.value.password;
      StrRoundTrip(u, Str(p));
      assert (Str(u) + Str(p))[2 + |u|..] == Str(p);
      StrRoundTrip(p, []);
      assert Str(p) + [] == Str(p);
    }
  }

  /** A broker reads back from CONNECT exactly what the client put in it: the flags say
      which optional fields follow, in the order client id, will topic and message, user
      name and password, and the Remaining Length covers exactly those bytes. */
  lemma ConnectRoundTrip(clientId: seq<Byte>, clean: bool, keepalive: nat, will: Option<LastWill>, login: Option<Credentials>)
    requires |clientId| < 0x1_0000 && WillOk(will) && LoginOk(login) && keepalive < 0x1_0000
    ensures ParseConnect(ConnectPacket(clientId, clean, keepalive, will, login))
         == Some(ConnectRequest(clientId, clean, keepalive, will,
                   if login.Some? then Some(login.value.user) else None,
                   if login.Some? then Some(login.value.password) else None))
  {
    Framed(0x10, ConnectBody(clientId, clean, keepalive, will, login));
    ConnectBodyRoundTrip(clientId, clean, keepalive, will, login);
    ConnectPayloadRoundTrip(clientId, clean, keepalive, will, login);
  }

  /** The CONNACK check accepts exactly the CONNACKs with return code 0, returning their
      session-present flag, and reports any other return code. */
  lemma ConnAckOfPacket(sessionPresent: bool, code: Byte)
    ensures ConnAck(ConnAckPacket(sessionPresent, code))
         == if code == 0 then Ok(if sessionPresent then 1 else 0) else Err(Rejected(code))
  {
  }

  /** A broker reads back identifier, topic filter and requested QoS from SUBSCRIBE. */
  lemma SubscribeRoundTrip(pid: nat, topic: seq<Byte>, qos: Byte)
    requires pid < 0x1_0000 && |topic| < 0x1_0000
    ensures ParseSubscribe(SubscribePacket(pid, topic, qos)) == Some(Subscription(pid, topic, qos))
  {
    var body := SubscribeBody(pid, topic, qos);
    Framed(0x82, body);
    assert body[2..] == Str(topic) + [qos];
    StrRoundTrip(topic, [qos]);
    assert body[..2] == U16(pid);
  }

  /** For topic filters of up to 122 bytes the single length byte `subscribe` writes is
      the correct Remaining Length encoding. */
  lemma SubscribeAsWrittenAgrees(pid: nat, topic: seq<Byte>, qos: Byte)
    requires pid < 0x1_0000 && |topic| <= 122
    ensures SubscribePacketAsWritten(pid, topic, qos) == SubscribePacket(pid, topic, qos)
  {
  }

  /** With a 123-byte topic filter the length byte is 0x80: a broker takes it as a
      continuation byte, reads the identifier's high byte as the next length group and
      sees a zero Remaining Length, so the packet does not parse. */
  lemma SubscribeAsWrittenMisframed(pid: nat, topic: seq<Byte>, qos: Byte)
    requires pid < 256 && |topic| == 123
    ensures var pkt := SubscribePacketAsWritten(pid, topic, qos);
      pkt[1] == 0x80 && DecodeLen(pkt, 1) == Some((0, 2)) && ParseSubscribe(pkt) == None
  {
    var pkt := SubscribePacketAsWritten(pid, topic, qos);
    assert pkt[2] == 0;
  }

  /** The SUBACK check accepts a SUBACK for the identifier sent unless it refuses the
      subscription; a SUBACK for any other identifier is a protocol violation, not ignored. */
  lemma SubAckOfPacket(sent: nat, acked: nat, granted: Byte)
    requires sent < 0x1_0000 && acked < 0x1_0000
    ensures SubAck(SubAckPacket(acked, granted)[1..], sent)
         == if acked != sent then Err(ProtocolViolation)
            else if granted == 0x80 then Err(Rejected(0x80))
            else Ok(())
  {
    U16Injective(sent, acked);
  }
}
