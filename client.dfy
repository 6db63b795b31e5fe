/** The client engine, class `MQTTClient`: its settings and state (packet identifier
    counter, callback, last will, socket) and its operations, each proved against the
    packet functions of `Packets` and the stream functions of `Inbound`. */
module Client {
  import opened Bits
  import opened Wire
  import opened Packets
  import opened Inbound
  import opened Transport

  /** The Remaining Length loop of `connect` and `publish`: the encoding of `sz` goes into
      `buf` from index 1, seven bits per byte, and the index of its last byte is returned.
      Nothing else in `buf` changes. */
  method PutRemainingLength(buf: array<Byte>, sz: nat) returns (i: nat)
    requires 1 + |EncodeLen(sz)| <= buf.Length
    modifies buf
    ensures i == |EncodeLen(sz)|
    ensures buf[..] == old(buf[..1]) + EncodeLen(sz) + old(buf[i + 1..])
  {
    ghost var e := EncodeLen(sz);
    var n := sz;
    i := 1;
    assert Pow2(7) == 128;
    while n > 0x7F
      invariant 1 <= i <= |e| && EncodeLen(n) == e[i - 1..]
      invariant forall j :: 1 <= j < i ==> buf[j] == e[j - 1]
      invariant forall j :: 0 <= j < buf.Length && (j == 0 || i <= j) ==> buf[j] == old(buf[j])
      decreases n
    {
      RemainingLengthStep(n);
      assert e[i - 1] == EncodeLen(n)[0] && e[i..] == EncodeLen(n)[1..];
      buf[i] := Or(And(n, 0x7F), 0x80);
      n := Shr(n, 7);
      i := i + 1;
    }
    assert e[i - 1] == n && |e| == i;
    buf[i] := n;
    assert buf[..] == old(buf[..1]) + e + old(buf[i + 1..]);
  }

  lemma Associative<T>(a: seq<T>, b: seq<T>, c: seq<T>)
    ensures a + (b + c) == (a + b) + c
  {
  }

  /** One pass of the PUBACK loop: with `dd` and `ss` the messages delivered and bytes sent before position `p`,
      the round read at `p` either ends the wait from `p1` or leaves it to go on from where
      the round stopped. */
  lemma AwaitPubAckLoopStep(input: seq<Byte>, p1: nat, p: nat, pid: nat, cb: bool, dd: seq<Message>, ss: seq<Byte>)
    requires p1 <= p <= |input|
    requires var a := AwaitPubAck(input, p, pid, cb);
      AwaitPubAck(input, p1, pid, cb) == Step(a.result, a.pos, dd + a.delivered, ss + a.sent)
    ensures var s := PubAckRound(input, p, pid, cb);
      var w := AwaitPubAck(input, p1, pid, cb);
      if s.result.Err? then w == Step(Err(s.result.error), s.pos, dd + s.delivered, ss + s.sent)
      else if s.result.value then w == Step(Ok(()), s.pos, dd + s.delivered, ss + s.sent)
      else var a := AwaitPubAck(input, s.pos, pid, cb);
        w == Step(a.result, a.pos, (dd + s.delivered) + a.delivered, (ss + s.sent) + a.sent)
  {
    var s := PubAckRound(input, p, pid, cb);
    if s.result == Ok(false) {
      var a := AwaitPubAck(input, s.pos, pid, cb);
      Associative(dd, s.delivered, a.delivered);
      Associative(ss, s.sent, a.sent);
    }
  }

  /** One pass of the SUBACK loop: with `dd` and `ss` the messages delivered and bytes sent before position `p`,
      the round read at `p` either ends the wait from `p1` or leaves it to go on from where
      the round stopped. */
  lemma AwaitSubAckLoopStep(input: seq<Byte>, p1: nat, p: nat, pid: nat, cb: bool, dd: seq<Message>, ss: seq<Byte>)
    requires p1 <= p <= |input| && pid < 0x1_0000
    requires var a := AwaitSubAck(input, p, pid, cb);
      AwaitSubAck(input, p1, pid, cb) == Step(a.result, a.pos, dd + a.delivered, ss + a.sent)
    ensures var s := SubAckRound(input, p, pid, cb);
      var w := AwaitSubAck(input, p1, pid, cb);
      if s.result.Err? then w == Step(Err(s.result.error), s.pos, dd + s.delivered, ss + s.sent)
      else if s.result.value then w == Step(Ok(()), s.pos, dd + s.delivered, ss + s.sent)
      else var a := AwaitSubAck(input, s.pos, pid, cb);
        w == Step(a.result, a.pos, (dd + s.delivered) + a.delivered, (ss + s.sent) + a.sent)
  {
    var s := SubAckRound(input, p, pid, cb);
    if s.result == Ok(false) {
      var a := AwaitSubAck(input, s.pos, pid, cb);
      Associative(dd, s.delivered, a.delivered);
      Associative(ss, s.sent, a.sent);
    }
  }

  /** The writes of `publish`, put together: type byte and Remaining Length, topic, the
      packet identifier when `qos` is not 0, then the message. */
  lemma PublishWritten(o: seq<Byte>, topic: seq<Byte>, msg: seq<Byte>, retain: bool, qos: nat, pid: nat,
                       n: nat, head: seq<Byte>, id: seq<Byte>)
    requires |topic| < 0x1_0000 && pid < 0x1_0000 && qos < 128
    requires n == 2 + |topic| + |msg| + (if qos > 0 then 2 else 0)
    requires head == [PublishHeader(qos, retain)] + EncodeLen(n)
    requires id == if qos > 0 then U16(pid) else []
    ensures o + head + Str(topic) + id + msg == o + PublishPacket(topic, msg, retain, qos, pid)
  {
    var h, e := [PublishHeader(qos, retain)], EncodeLen(|PublishBody(topic, msg, qos, pid)|);
    var body := PublishBody(topic, msg, qos, pid);
    assert body == Str(topic) + id + msg;
    Associative(h, e, body);
    Associative(o, h + e, body);
    Associative(o + head, Str(topic) + id, msg);
    Associative(o + head, Str(topic), id);
  }

  /** The writes of `subscribe`, put together: the four bytes of `pkt` (type byte, the
      one-byte length and the identifier), the topic string, then the QoS byte. */
  lemma SubscribeWritten(o: seq<Byte>, pid: nat, topic: seq<Byte>, qos: Byte, pkt: seq<Byte>)
    requires pid < 0x1_0000 && 5 + |topic| < 256
    requires pkt == [0x82, 5 + |topic|] + U16(pid)
    ensures o + pkt + Str(topic) + [qos] == o + SubscribePacketAsWritten(pid, topic, qos)
  {
    Associative(o, pkt, Str(topic) + [qos]);
    Associative(o + pkt, Str(topic), [qos]);
  }

  /** One pass of the Remaining Length loop: `(n & 0x7F) | 0x80` is the first byte of the
      encoding of `n` and `n >> 7` encodes to the rest. */
  lemma RemainingLengthStep(n: nat)
    requires n > 0x7F
    ensures Or(And(n, 0x7F), 0x80) == EncodeLen(n)[0] && EncodeLen(n)[1..] == EncodeLen(Shr(n, 7))
  {
    assert Pow2(7) == 128;
    AndLowMask(n, 7);
    OrShifted(n % 128, 1, 7);
  }

  /** `struct.pack_into("!H", buf, off, x)`. */
  method PackU16(buf: array<Byte>, off: nat, x: nat)
    requires off + 2 <= buf.Length && x < 0x1_0000
    modifies buf
    ensures buf[..] == old(buf[..off]) + U16(x) + old(buf[off + 2..])
  {
    buf[off] := x / 256;
    buf[off + 1] := x % 256;
    assert buf[..] == buf[..off] + buf[off..off + 2] + buf[off + 2..];
  }

  /** What `_recv_len` has still to read, given the value `n` of the groups already read
      and the bit position `sh` of the next group, `k` bytes into the encoding. */
  ghost function Resume(rest: Option<(nat, nat)>, n: nat, sh: nat, k: nat): Option<(nat, nat)>
  {
    match rest
    case None => None
    case Some((v, j)) => Some((n + v * Pow2(sh), j + k))
  }

  /** The arithmetic of one `_recv_len` step: the group read lands above the value so far,
      and what follows lands seven bits higher. */
  lemma RecvLenStep(n: nat, x: nat, v: nat, sh: nat)
    requires n < Pow2(sh) && x < 128
    ensures n + x * Pow2(sh) < Pow2(sh + 7)
    ensures n + (x + 128 * v) * Pow2(sh) == (n + x * Pow2(sh)) + v * Pow2(sh + 7)
  {
    var p := Pow2(sh);
    Pow2Add(sh, 7);
    assert Pow2(7) == 128;
    MulAtMost(x, 127, p);
    assert (x + 128 * v) * p == x * p + v * (128 * p);
  }

  /** The bit operations of one `_recv_len` step on the byte `b`: bit 7 says whether
      more follow and the low seven bits are added at bit position `sh`. */
  lemma RecvLenByte(n: nat, b: Byte, sh: nat)
    requires n < Pow2(sh)
    ensures (And(b, 0x80) == 0) == (b < 128)
    ensures Or(n, Shl(And(b, 0x7F), sh)) == n + Shl(b % 128, sh)
  {
    AndLowMask(b, 7);
    assert Pow2(7) == 128;
    OrShifted(n, b % 128, sh);
    TopBit(b);
  }

  /** The last byte of a Remaining Length. */
  lemma RecvLenLast(input: seq<Byte>, p0: nat, p: nat, n: nat, sh: nat)
    requires p0 <= p < |input| && input[p] < 128
    requires DecodeLen(input, p0) == Resume(DecodeLen(input, p), n, sh, p - p0)
    ensures DecodeLen(input, p0) == Some((n + Shl(input[p] % 128, sh), p + 1 - p0))
  {
  }

  /** One continuation byte of `_recv_len`: what is left to decode moves one byte on,
      its group landing above the value so far. */
  lemma RecvLenAdvance(input: seq<Byte>, p0: nat, p: nat, n: nat, sh: nat)
    requires p0 <= p < |input| && input[p] >= 128 && n < Pow2(sh)
    requires DecodeLen(input, p0) == Resume(DecodeLen(input, p), n, sh, p - p0)
    ensures n + Shl(input[p] % 128, sh) < Pow2(sh + 7)
    ensures DecodeLen(input, p0) == Resume(DecodeLen(input, p + 1), n + Shl(input[p] % 128, sh), sh + 7, p + 1 - p0)
  {
    var x := input[p] - 128;
    assert input[p] % 128 == x && Shl(x, sh) == x * Pow2(sh);
    RecvLenStep(n, x, 0, sh);
    match DecodeLen(input, p + 1)
    case None =>
      assert DecodeLen(input, p) == None;
    case Some((v, j)) =>
      RecvLenStep(n, x, v, sh);
      assert DecodeLen(input, p) == Some((x + 128 * v, j + 1));
  }

  /** The connect-flags bits `0x4 | (q & 0x1) << 3 | (q & 0x2) << 3` that announce a last
      will of QoS `q`. */
  lemma WillFlagBits(q: nat)
    requires q <= 2
    ensures Or(Or(4, Shl(And(q, 1), 3)), Shl(And(q, 2), 3)) == 4 + 8 * q
  {
    assert Pow2(1) == 2 && Pow2(3) == 8 && Pow2(4) == 16 && Pow2(8) == 256;
    AndLowMask(q, 1);
    AndShl(q, 1, 1);
    assert Shl(1, 1) == 2 && Shr(q, 1) == q / 2;
    AndLowMask(q / 2, 1);
    assert And(q, 2) == 2 * (q / 2);
    OrBelow(4, Shl(And(q, 1), 3), 3, 8);
    OrBelow(4 + 8 * (q % 2), Shl(And(q, 2), 3), 4, 8);
  }

  /** The connect flags as the sum of their bits. */
  lemma ConnectFlagsSum(clean: bool, will: Option<LastWill>, login: bool)
    requires will.Some? ==> will.value.qos <= 2
    ensures ConnectFlags(clean, will, login)
      == 2 * Bit(clean) + (if will.Some? then 4 + 8 * will.value.qos + 32 * Bit(will.value.retain) else 0) + (if login then 192 else 0)
  {
  }

  /** `msg[6] |= 0xC0` on the clean-session bit: the user name and password flags. */
  lemma LoginFlagsStep(c: nat)
    requires c < 2
    ensures Or(Shl(c, 1), 0xC0) == 2 * c + 0xC0
  {
    assert Pow2(1) == 2 && Pow2(6) == 64 && Pow2(8) == 256;
    ModOfSplit(2 * c, 0, 256, 2 * c);
    ModOfSplit(0xC0, 3, 64, 0);
    OrBelow(2 * c, 0xC0, 6, 8);
  }

  /** The will flag and will QoS or-ed into the flags byte `2c + 192u`. */
  lemma WillFlagsStep(c: nat, u: nat, q: nat)
    requires c < 2 && u < 2 && q <= 2
    ensures Or(2 * c + 192 * u, Or(Or(0x4, Shl(And(q, 0x1), 3)), Shl(And(q, 0x2), 3))) == 2 * c + 192 * u + 4 + 8 * q
  {
    WillFlagBits(q);
    assert Pow2(2) == 4 && Pow2(6) == 64;
    ModOfSplit(2 * c + 192 * u, 3 * u, 64, 2 * c);
    ModOfSplit(4 + 8 * q, 1 + 2 * q, 4, 0);
    OrBelow(2 * c + 192 * u, 4 + 8 * q, 2, 6);
  }

  /** The will retain flag or-ed in after them. */
  lemma RetainFlagStep(c: nat, u: nat, q: nat, rt: nat)
    requires c < 2 && u < 2 && q <= 2 && rt < 2
    ensures Or(2 * c + 192 * u + 4 + 8 * q, Shl(rt, 5)) == 2 * c + 192 * u + 4 + 8 * q + 32 * rt
  {
    assert Pow2(5) == 32 && Pow2(6) == 64;
    ModOfSplit(2 * c + 192 * u + 4 + 8 * q, 3 * u, 64, 2 * c + 4 + 8 * q);
    ModOfSplit(32 * rt, rt, 32, 0);
    OrBelow(2 * c + 192 * u + 4 + 8 * q, Shl(rt, 5), 5, 6);
  }

  /** `msg[7] |= keepalive >> 8` and `msg[8] |= keepalive & 0x00FF` on zero bytes give the
      keep-alive as a big-endian 16-bit integer. */
  lemma KeepAliveBytes(k: nat)
    requires k < 0x1_0000
    ensures [Or(0, Shr(k, 8)), Or(0, And(k, 0x00FF))] == U16(k)
  {
    assert Pow2(8) == 256;
    AndLowMask(k, 8);
  }

  /** The bytes `connect` writes, put together: the first `i + 2` bytes of `premsg` (type
      byte, Remaining Length and the zero high byte of the protocol name length), the nine
      bytes of `msg`, then the strings. */
  lemma ConnectWritten(clientId: seq<Byte>, clean: bool, keepalive: nat, will: Option<LastWill>, login: Option<Credentials>,
                       n: nat, premsg: seq<Byte>, msg: seq<Byte>)
    requires |clientId| < 0x1_0000 && WillOk(will) && LoginOk(login) && keepalive < 0x1_0000
    requires n == |ConnectBody(clientId, clean, keepalive, will, login)|
    requires premsg == [0x10] + EncodeLen(n) + [0]
    requires msg == [0x04, 0x4D, 0x51, 0x54, 0x54, 0x04, ConnectFlags(clean, will, login.Some?)] + U16(keepalive)
    ensures premsg + msg + ConnectPayload(clientId, will, login) == ConnectPacket(clientId, clean, keepalive, will, login)
  {
    var flags := ConnectFlags(clean, will, login.Some?);
    assert [0] + msg == ConnectHeader(flags, keepalive);
  }

  class MQTTClient {
    const clientId: seq<Byte>
    const server: string
    const port: nat
    const ssl: bool
    const user: Option<seq<Byte>>
    const pswd: Option<seq<Byte>>
    const keepalive: nat
    /** The connection; none before `connect`. */
    var sock: Socket?
    /** The last packet identifier used. */
    var pid: nat
    /** Whether a callback is set. */
    var cb: bool
    /** The last will; an empty topic means none is set. */
    var lwTopic: seq<Byte>
    var lwMsg: seq<Byte>
    var lwQos: nat
    var lwRetain: bool
    /** Every (topic, message) pair handed to the callback, in order. */
    ghost var received: seq<Message>

    ghost predicate Valid()
      reads this`lwQos
    {
      lwQos <= 2
    }

    /** The last will `connect` announces. */
    function Will(): (w: Option<LastWill>)
      reads this`lwTopic, this`lwMsg, this`lwQos, this`lwRetain
      ensures w.Some? <==> |lwTopic| > 0
    {
      if |lwTopic| > 0 then Some(LastWill(lwTopic, lwMsg, lwQos, lwRetain)) else None
    }

    /** The user name and password `connect` sends. */
    function Login(): (l: Option<Credentials>)
    {
      if user.Some? && pswd.Some? then Some(Credentials(user.value, pswd.value)) else None
    }

    /** Port 0 stands for the default port: 8883 with TLS, 1883 without. */
    constructor (clientId: seq<Byte>, server: string, port: nat := 0, user: Option<seq<Byte>> := None,
                 password: Option<seq<Byte>> := None, keepalive: nat := 0, ssl: bool := false)
      ensures Valid()
      ensures this.clientId == clientId && this.server == server && this.ssl == ssl
      ensures this.port == if port == 0 then (if ssl then 8883 else 1883) else port
      ensures this.user == user && pswd == password && this.keepalive == keepalive
      ensures sock == null && pid == 0 && !cb && received == []
      ensures lwTopic == [] && lwMsg == [] && lwQos == 0 && !lwRetain
    {
      this.clientId := clientId;
      this.server := server;
      this.port := if port == 0 then (if ssl then 8883 else 1883) else port;
      this.ssl := ssl;
      this.user := user;
      pswd := password;
      this.keepalive := keepalive;
      sock := null;
      pid := 0;
      cb := false;
      lwTopic, lwMsg, lwQos, lwRetain := [], [], 0, false;
      received := [];
    }

    /** `_send_str`: the length as two big-endian bytes, then the bytes. */
    method SendStr(s: seq<Byte>)
      requires sock != null && |s| < 0x1_0000
      modifies sock`output
      ensures sock.output == old(sock.output) + Str(s)
    {
      sock.Write(U16(|s|));
      sock.Write(s);
    }

    /** `_recv_len`: reads a Remaining Length, a byte at a time while bit 7 is set, with
        no limit on the number of bytes. A stream that ends first is a failure. */
    method RecvLen() returns (r: Result<nat>)
      requires sock != null && sock.Valid() && sock.blocking
      modifies sock`pos
      ensures sock.Valid()
      ensures var d := DecodeLen(sock.input, old(sock.pos));
        if d.None? then r == Err(Truncated) && sock.pos == |sock.input|
        else r == Ok(d.value.0) && sock.pos == old(sock.pos) + d.value.1
    {
      var n: nat, sh: nat := 0, 0;
      ghost var p0, input := sock.pos, sock.input;
      assert Pow2(0) == 1;
      while true
        invariant sock.Valid() && sock.blocking && sock.input == input
        invariant p0 <= sock.pos && sh == 7 * (sock.pos - p0) && n < Pow2(sh)
          && DecodeLen(input, p0) == Resume(DecodeLen(input, sock.pos), n, sh, sock.pos - p0)
        decreases |sock.input| - sock.pos
      {
        ghost var p := sock.pos;
        var res := sock.Read(1);
        if |res.value| == 0 {
          assert DecodeLen(input, p) == None;
          return Err(Truncated);
        }
        var b := res.value[0];
        assert b == input[p];
        RecvLenByte(n, b, sh);
        ghost var n0 := n;
        n := Or(n, Shl(And(b, 0x7F), sh));
        if And(b, 0x80) == 0 {
          RecvLenLast(input, p0, p, n0, sh);
          return Ok(n);
        }
        RecvLenAdvance(input, p0, p, n0, sh);
        sh := sh + 7;
      }
    }

    /** `set_callback`: `f` says whether a callable (rather than None) is passed. */
    method SetCallback(f: bool)
      modifies this`cb
      ensures cb == f
    {
      cb := f;
    }

    /** `set_last_will`: the topic must be non-empty and the QoS 0, 1 or 2. */
    method SetLastWill(topic: seq<Byte>, msg: seq<Byte>, retain: bool := false, qos: nat := 0)
      requires qos <= 2 && |topic| > 0
      modifies this`lwTopic, this`lwMsg, this`lwQos, this`lwRetain
      ensures Valid() && Will() == Some(LastWill(topic, msg, qos, retain))
    {
      lwTopic, lwMsg, lwQos, lwRetain := topic, msg, qos, retain;
    }

    /** `connect` on the socket `s` the environment has connected: writes CONNECT, reads
        four bytes and checks them as a CONNACK. */
    method Connect(s: Socket, clean: bool := true) returns (r: Result<nat>)
      requires Valid() && s.Valid() && s.blocking
      requires |clientId| < 0x1_0000 && keepalive < 0x1_0000
      requires user.Some? ==> pswd.Some? && |user.value| < 0x1_0000 && |pswd.value| < 0x1_0000
      requires |lwTopic| < 0x1_0000 && (|lwTopic| > 0 ==> |lwMsg| < 0x1_0000)
      modifies this`sock, s`output, s`pos
      ensures sock == s && s.Valid()
      ensures s.output == old(s.output) + ConnectPacket(clientId, clean, keepalive, Will(), Login())
      ensures r == ConnAck(Take(s.input, old(s.pos), 4))
      ensures s.pos == old(s.pos) + |Take(s.input, old(s.pos), 4)|
    {
      sock := s;
      SendConnect(clean);
      r := ReadConnAck();
    }

    /** The sending part of `connect`: CONNECT, built as the type byte and Remaining Length
        in `premsg`, the variable header in `msg`, then the strings. */
    method SendConnect(clean: bool)
      requires sock != null && Valid()
      requires |clientId| < 0x1_0000 && keepalive < 0x1_0000
      requires user.Some? ==> pswd.Some? && |user.value| < 0x1_0000 && |pswd.value| < 0x1_0000
      requires |lwTopic| < 0x1_0000 && (|lwTopic| > 0 ==> |lwMsg| < 0x1_0000)
      modifies sock`output
      ensures sock.output == old(sock.output) + ConnectPacket(clientId, clean, keepalive, Will(), Login())
    {
      ghost var will, login := Will(), Login();
      var msg, sz := ConnectHeaderBytes(clean);
      ghost var o := sock.output;
      var premsg, i := ConnectFixedHeader(sz);
      ghost var head := premsg[..i + 2];
      sock.Write(premsg[..i + 2]);
      sock.Write(msg[..]);
      ghost var payload := ConnectPayload(clientId, will, login);
      SendConnectPayload();
      ConnectWritten(clientId, clean, keepalive, will, login, sz, head, msg[..]);
      Associative(o, head + msg[..], payload);
      Associative(o, head, msg[..]);
    }

    /** The start of `connect`'s `premsg` buffer: type byte 0x10 and the Remaining Length
        `sz`, followed by the zero that starts the protocol name length. */
    method ConnectFixedHeader(sz: nat) returns (premsg: array<Byte>, i: nat)
      requires sz < 268435456
      ensures fresh(premsg) && premsg.Length == 6 && i + 2 <= 6
      ensures premsg[..i + 2] == [0x10] + EncodeLen(sz) + [0]
    {
      premsg := new Byte[6] [0x10, 0, 0, 0, 0, 0];
      Pow2Table();
      EncodeLenSize(sz, 4);
      i := PutRemainingLength(premsg, sz);
      assert premsg[..i + 2] == premsg[..i + 1] + [premsg[i + 1]];
    }

    /** The variable header `connect` builds in `msg` (protocol name, level, connect flags,
        keep-alive) and the Remaining Length it adds up in `sz`. */
    method ConnectHeaderBytes(clean: bool) returns (msg: array<Byte>, sz: nat)
      requires Valid() && |clientId| < 0x1_0000 && keepalive < 0x1_0000
      requires user.Some? ==> pswd.Some? && |user.value| < 0x1_0000 && |pswd.value| < 0x1_0000
      requires |lwTopic| < 0x1_0000 && (|lwTopic| > 0 ==> |lwMsg| < 0x1_0000)
      ensures fresh(msg)
      ensures msg[..] == [0x04, 0x4D, 0x51, 0x54, 0x54, 0x04, ConnectFlags(clean, Will(), Login().Some?)] + U16(keepalive)
      ensures sz == |ConnectBody(clientId, clean, keepalive, Will(), Login())|
    {
      msg := new Byte[9] [0x04, 0x4D, 0x51, 0x54, 0x54, 0x04, 0x02, 0, 0];
      sz := 10 + 2 + |clientId|;
      if user.Some? {
        sz := sz + 2 + |user.value| + 2 + |pswd.value|;
      }
      if |lwTopic| > 0 {
        sz := sz + 2 + |lwTopic| + 2 + |lwMsg|;
      }
      var f := ConnectFlagsByte(clean);
      msg[6] := f;
      if keepalive != 0 {
        KeepAliveBytes(keepalive);
        msg[7] := Or(msg[7], Shr(keepalive, 8));
        msg[8] := Or(msg[8], And(keepalive, 0x00FF));
      }
      assert [msg[7], msg[8]] == U16(keepalive);
      assert msg[..] == [0x04, 0x4D, 0x51, 0x54, 0x54, 0x04, f] + [msg[7], msg[8]];
      ConnectLength(clientId, clean, keepalive, Will(), Login());
    }

    /** The connect flags `connect` or-s together in `msg[6]`: clean session, then the
        user name and password flags when a user is set, then the will flag, QoS and
        retain when a will is. */
    method ConnectFlagsByte(clean: bool) returns (f: Byte)
      requires Valid() && (user.Some? ==> pswd.Some?)
      ensures f == ConnectFlags(clean, Will(), Login().Some?)
    {
      assert Pow2(1) == 2;
      var c := Bit(clean);
      f := Shl(c, 1);
      ghost var u := 0;
      if user.Some? {
        LoginFlagsStep(c);
        f := Or(f, 0xC0);
        u := 1;
      }
      assert f == 2 * c + 192 * u;
      ghost var e := f;
      if |lwTopic| > 0 {
        WillFlagsStep(c, u, lwQos);
        f := Or(f, Or(Or(0x4, Shl(And(lwQos, 0x1), 3)), Shl(And(lwQos, 0x2), 3)));
        RetainFlagStep(c, u, lwQos, Bit(lwRetain));
        f := Or(f, Shl(Bit(lwRetain), 5));
        e := e + 4 + 8 * lwQos + 32 * Bit(lwRetain);
      }
      assert f == e;
      assert Login().Some? == (u == 1);
      ConnectFlagsSum(clean, Will(), Login().Some?);
    }

    /** The strings `connect` sends after the variable header: client identifier, last
        will topic and message when a will is set, user name and password when a user is. */
    method SendConnectPayload()
      requires sock != null && Valid() && |clientId| < 0x1_0000
      requires user.Some? ==> pswd.Some? && |user.value| < 0x1_0000 && |pswd.value| < 0x1_0000
      requires |lwTopic| < 0x1_0000 && (|lwTopic| > 0 ==> |lwMsg| < 0x1_0000)
      modifies sock`output
      ensures sock.output == old(sock.output) + ConnectPayload(clientId, Will(), Login())
    {
      ghost var o := sock.output;
      SendStr(clientId);
      ghost var w: seq<Byte> := [];
      if |lwTopic| > 0 {
        SendStr(lwTopic);
        SendStr(lwMsg);
        w := Str(lwTopic) + Str(lwMsg);
        Associative(o + Str(clientId), Str(lwTopic), Str(lwMsg));
      }
      assert sock.output == o + Str(clientId) + w;
      ghost var l: seq<Byte> := [];
      if user.Some? {
        SendStr(user.value);
        SendStr(pswd.value);
        l := Str(user.value) + Str(pswd.value);
        Associative(o + Str(clientId) + w, Str(user.value), Str(pswd.value));
      }
      assert sock.output == o + Str(clientId) + w + l;
      Associative(o, Str(clientId) + w, l);
      Associative(o, Str(clientId), w);
    }

    /** The CONNACK check of `connect`: four bytes, the first two 0x20 0x02, the return
        code in the last; the result is the session-present bit. */
    method ReadConnAck() returns (r: Result<nat>)
      requires sock != null && sock.Valid() && sock.blocking
      modifies sock`pos
      ensures sock.Valid()
      ensures r == ConnAck(Take(sock.input, old(sock.pos), 4))
      ensures sock.pos == old(sock.pos) + |Take(sock.input, old(sock.pos), 4)|
    {
      var resp := sock.Read(4);
      var b := resp.value;
      if |b| < 1 || b[0] != 0x20 || |b| < 2 || b[1] != 0x02 {
        return if |b| < 1 || (b[0] == 0x20 && |b| < 2) then Err(Truncated) else Err(ProtocolViolation);
      }
      if |b| < 4 {
        return Err(Truncated);
      }
      if b[3] != 0 {
        return Err(Rejected(b[3]));
      }
      AndLowMask(b[2], 1);
      return Ok(And(b[2], 1));
    }

    /** `disconnect`: DISCONNECT, then the socket is closed. */
    method Disconnect()
      requires sock != null
      modifies sock`output, sock`closed
      ensures sock.output == old(sock.output) + Packets.Disconnect && sock.closed
    {
      sock.Write([0xE0, 0x00]);
      sock.Close();
    }

    /** `ping`: PINGREQ. */
    method Ping()
      requires sock != null
      modifies sock`output
      ensures sock.output == old(sock.output) + Packets.Ping
    {
      sock.Write([0xC0, 0x00]);
    }

    /** `publish`: writes PUBLISH, taking a new packet identifier when `qos` is not 0;
        then waits for the PUBACK of that identifier when `qos` is 1, and fails, with the
        packet already sent, when it is 2. */
    method Publish(topic: seq<Byte>, msg: seq<Byte>, retain: bool := false, qos: nat := 0) returns (r: Result<()>)
      requires sock != null && sock.Valid() && sock.blocking
      requires qos < 128 && |topic| < 0x1_0000
      requires 2 + |topic| + |msg| + (if qos > 0 then 2 else 0) < 2097152
      requires qos > 0 ==> pid < 0xFFFF
      modifies this`pid, this`received, sock`output, sock`pos, sock`blocking
      ensures sock.Valid() && sock.blocking
      ensures pid == old(pid) + (if qos > 0 then 1 else 0)
      ensures var pkt := PublishPacket(topic, msg, retain, qos, if qos > 0 then pid else 0);
        if qos == 1 then
          var a := AwaitPubAck(sock.input, old(sock.pos), pid, cb);
          r == a.result && sock.pos == a.pos && received == old(received) + a.delivered
          && sock.output == old(sock.output) + pkt + a.sent
        else
          r == (if qos == 2 then Err(QosUnsupported) else Ok(())) && sock.pos == old(sock.pos)
          && received == old(received) && sock.output == old(sock.output) + pkt
    {
      SendPublish(topic, msg, retain, qos);
      if qos == 1 {
        r := WaitPubAck(pid);
      } else if qos == 2 {
        r := Err(QosUnsupported);
      } else {
        r := Ok(());
      }
    }

    /** The sending part of `publish`. */
    method SendPublish(topic: seq<Byte>, msg: seq<Byte>, retain: bool, qos: nat)
      requires sock != null
      requires qos < 128 && |topic| < 0x1_0000
      requires 2 + |topic| + |msg| + (if qos > 0 then 2 else 0) < 2097152
      requires qos > 0 ==> pid < 0xFFFF
      modifies this`pid, sock`output
      ensures pid == old(pid) + (if qos > 0 then 1 else 0)
      ensures sock.output == old(sock.output) + PublishPacket(topic, msg, retain, qos, if qos > 0 then pid else 0)
    {
      var sz := 2 + |topic| + |msg|;
      if qos > 0 {
        sz := sz + 2;
      }
      ghost var o := sock.output;
      var pkt, i := PublishFixedHeader(qos, retain, sz);
      ghost var head := pkt[..i + 1];
      sock.Write(pkt[..i + 1]);
      SendStr(topic);
      ghost var id: seq<Byte> := [];
      if qos > 0 {
        pid := pid + 1;
        PackU16(pkt, 0, pid);
        id := pkt[..2];
        assert id == U16(pid);
        sock.Write(pkt[..2]);
      }
      assert sock.output == o + head + Str(topic) + id;
      sock.Write(msg);
      PublishWritten(o, topic, msg, retain, qos, if qos > 0 then pid else 0, sz, head, id);
    }

    /** The start of `publish`'s buffer: the type byte with the QoS and RETAIN bits or-ed
        in, then the Remaining Length `sz`; `i` is the index of its last byte. */
    method PublishFixedHeader(qos: nat, retain: bool, sz: nat) returns (pkt: array<Byte>, i: nat)
      requires qos < 128 && sz < 2097152
      ensures fresh(pkt) && pkt.Length == 4 && i + 1 <= 4
      ensures pkt[..i + 1] == [PublishHeader(qos, retain)] + EncodeLen(sz)
    {
      pkt := new Byte[4] [0x30, 0, 0, 0];
      var h := Or(pkt[0], Or(Shl(qos, 1), Bit(retain)));
      assert h == PublishHeader(qos, retain);
      pkt[0] := h;
      Pow2Table();
      EncodeLenSize(sz, 3);
      i := PutRemainingLength(pkt, sz);
    }

    /** The QoS 1 wait of `publish`: rounds of `PubAckRound` until one ends it. */
    method WaitPubAck(id: nat) returns (r: Result<()>)
      requires sock != null && sock.Valid() && sock.blocking
      modifies this`received, sock`output, sock`pos, sock`blocking
      ensures sock.Valid() && sock.blocking
      ensures var a := AwaitPubAck(sock.input, old(sock.pos), id, cb);
        r == a.result && sock.pos == a.pos && received == old(received) + a.delivered
        && sock.output == old(sock.output) + a.sent
    {
      ghost var p1, d1, o1 := sock.pos, received, sock.output;
      ghost var input, c := sock.input, cb;
      ghost var dd: seq<Message>, ss: seq<Byte> := [], [];
      while true
        invariant sock.Valid() && sock.blocking && p1 <= sock.pos
        invariant sock.input == input && cb == c
        invariant received == d1 + dd && sock.output == o1 + ss
        invariant var a := AwaitPubAck(input, sock.pos, id, c);
          AwaitPubAck(input, p1, id, c) == Step(a.result, a.pos, dd + a.delivered, ss + a.sent)
        decreases |sock.input| - sock.pos
      {
        ghost var s := Inbound.PubAckRound(input, sock.pos, id, c);
        AwaitPubAckLoopStep(input, p1, sock.pos, id, c, dd, ss);
        var done := PubAckRound(id);
        Associative(d1, dd, s.delivered);
        Associative(o1, ss, s.sent);
        dd, ss := dd + s.delivered, ss + s.sent;
        if done.Err? {
          return Err(done.error);
        }
        if done.value {
          return Ok(());
        }
      }
    }

    /** One round of the QoS 1 wait: `wait_msg`, and when it returns 0x40, the length
        byte, which must be 2, and the identifier, which ends the wait when it is `id`. */
    method PubAckRound(id: nat) returns (r: Result<bool>)
      requires sock != null && sock.Valid() && sock.blocking
      modifies this`received, sock`output, sock`pos, sock`blocking
      ensures sock.Valid() && sock.blocking
      ensures var s := Inbound.PubAckRound(sock.input, old(sock.pos), id, cb);
        r == s.result && sock.pos == s.pos && received == old(received) + s.delivered
        && sock.output == old(sock.output) + s.sent
    {
      ghost var s := Inbound.WaitMsg(sock.input, sock.pos, false, cb);
      var op := WaitMsg();
      if op.Err? {
        return Err(op.error);
      }
      if op.value != Some(0x40) {
        return Ok(false);
      }
      assert sock.pos == s.pos;
      var sz := sock.Read(1);
      if sz.value != [0x02] {
        return Err(ProtocolViolation);
      }
      assert sz.value[0] == sock.input[s.pos];
      var rcvPid := ReadU16();
      if rcvPid.None? {
        assert |sock.input| < s.pos + 3;
        assert sock.pos == |sock.input|;
        return Err(Truncated);
      }
      return Ok(id == rcvPid.value);
    }

    /** `subscribe`: takes a new packet identifier, writes SUBSCRIBE for one topic filter
        with its Remaining Length packed as one byte, then waits for a SUBACK and checks it
        against that identifier. */
    method Subscribe(topic: seq<Byte>, qos: Byte := 0) returns (r: Result<()>)
      requires sock != null && sock.Valid() && sock.blocking
      requires cb && 5 + |topic| < 256 && pid < 0xFFFF
      modifies this`pid, this`received, sock`output, sock`pos, sock`blocking
      ensures sock.Valid() && sock.blocking
      ensures pid == old(pid) + 1
      ensures var a := AwaitSubAck(sock.input, old(sock.pos), pid, cb);
        r == a.result && sock.pos == a.pos && received == old(received) + a.delivered
        && sock.output == old(sock.output) + SubscribePacketAsWritten(pid, topic, qos) + a.sent
    {
      SendSubscribe(topic, qos);
      r := WaitSubAck(pid);
    }

    /** The sending part of `subscribe`: `struct.pack_into("!BH", pkt, 1, ...)` puts the
        length `2 + 2 + |topic| + 1` in one byte and the identifier after it. */
    method SendSubscribe(topic: seq<Byte>, qos: Byte)
      requires sock != null && 5 + |topic| < 256 && pid < 0xFFFF
      modifies this`pid, sock`output
      ensures pid == old(pid) + 1
      ensures sock.output == old(sock.output) + SubscribePacketAsWritten(pid, topic, qos)
    {
      var pkt := new Byte[4] [0x82, 0, 0, 0];
      pid := pid + 1;
      pkt[1] := 2 + 2 + |topic| + 1;
      PackU16(pkt, 2, pid);
      ghost var o := sock.output;
      sock.Write(pkt[..]);
      SendStr(topic);
      sock.Write([qos]);
      SubscribeWritten(o, pid, topic, qos, pkt[..]);
    }

    /** The wait of `subscribe`: rounds of `SubAckRound` until one ends it. */
    method WaitSubAck(id: nat) returns (r: Result<()>)
      requires sock != null && sock.Valid() && sock.blocking && id < 0x1_0000
      modifies this`received, sock`output, sock`pos, sock`blocking
      ensures sock.Valid() && sock.blocking
      ensures var a := AwaitSubAck(sock.input, old(sock.pos), id, cb);
        r == a.result && sock.pos == a.pos && received == old(received) + a.delivered
        && sock.output == old(sock.output) + a.sent
    {
      ghost var p1, d1, o1 := sock.pos, received, sock.output;
      ghost var input, c := sock.input, cb;
      ghost var dd: seq<Message>, ss: seq<Byte> := [], [];
      while true
        invariant sock.Valid() && sock.blocking && p1 <= sock.pos
        invariant sock.input == input && cb == c
        invariant received == d1 + dd && sock.output == o1 + ss
        invariant var a := AwaitSubAck(input, sock.pos, id, c);
          AwaitSubAck(input, p1, id, c) == Step(a.result, a.pos, dd + a.delivered, ss + a.sent)
        decreases |sock.input| - sock.pos
      {
        ghost var s := Inbound.SubAckRound(input, sock.pos, id, c);
        AwaitSubAckLoopStep(input, p1, sock.pos, id, c, dd, ss);
        var done := SubAckRound(id);
        Associative(d1, dd, s.delivered);
        Associative(o1, ss, s.sent);
        dd, ss := dd + s.delivered, ss + s.sent;
        if done.Err? {
          return Err(done.error);
        }
        if done.value {
          return Ok(());
        }
      }
    }

    /** One round of the wait of `subscribe`: `wait_msg`, and when it returns 0x90, four
        bytes, which must carry the identifier `id` and a return code other than 0x80. */
    method SubAckRound(id: nat) returns (r: Result<bool>)
      requires sock != null && sock.Valid() && sock.blocking && id < 0x1_0000
      modifies this`received, sock`output, sock`pos, sock`blocking
      ensures sock.Valid() && sock.blocking
      ensures var s := Inbound.SubAckRound(sock.input, old(sock.pos), id, cb);
        r == s.result && sock.pos == s.pos && received == old(received) + s.delivered
        && sock.output == old(sock.output) + s.sent
    {
      ghost var s := Inbound.WaitMsg(sock.input, sock.pos, false, cb);
      var op := WaitMsg();
      if op.Err? {
        return Err(op.error);
      }
      if op.value != Some(0x90) {
        return Ok(false);
      }
      assert sock.pos == s.pos;
      var resp := sock.Read(4);
      var b := resp.value;
      var sent := U16(id);
      if |b| < 2 || b[1] != sent[0] || |b| < 3 || b[2] != sent[1] {
        return if |b| < 2 || (b[1] == sent[0] && |b| < 3) then Err(Truncated) else Err(ProtocolViolation);
      }
      if |b| < 4 {
        return Err(Truncated);
      }
      if b[3] == 0x80 {
        return Err(Rejected(b[3]));
      }
      return Ok(true);
    }

    /** `wait_msg`: one read of a type byte and whatever it starts. The read is
        non-blocking when the socket is; afterwards the socket blocks. */
    method WaitMsg() returns (r: Result<Option<Byte>>)
      requires sock != null && sock.Valid()
      modifies sock`pos, sock`output, sock`blocking, this`received
      ensures sock.Valid() && sock.blocking
      ensures var s := Inbound.WaitMsg(sock.input, old(sock.pos), !old(sock.blocking) && !sock.ready, cb);
        r == s.result && sock.pos == s.pos && received == old(received) + s.delivered
        && sock.output == old(sock.output) + s.sent
    {
      var res := sock.Read(1);
      sock.SetBlocking(true);
      if res.None? {
        return Ok(None);
      }
      if res.value == [] {
        return Err(EndOfStream);
      }
      if res.value == [0xD0] {
        var sz := sock.Read(1);
        if |sz.value| == 0 {
          return Err(Truncated);
        }
        if sz.value[0] != 0 {
          return Err(ProtocolViolation);
        }
        return Ok(None);
      }
      var op := res.value[0];
      TypeNibble(op);
      if And(op, 0xF0) != 0x30 {
        return Ok(Some(op));
      }
      r := ReceivePublish(op);
    }

    /** The PUBLISH part of `wait_msg`, once its type byte `op` has been read: the
        Remaining Length, then the rest. */
    method ReceivePublish(op: Byte) returns (r: Result<Option<Byte>>)
      requires sock != null && sock.Valid() && sock.blocking && 0 < sock.pos
      modifies sock`pos, sock`output, this`received
      ensures sock.Valid()
      ensures var s := Inbound.Publish(sock.input, op, old(sock.pos), cb);
        r == s.result && sock.pos == s.pos && received == old(received) + s.delivered
        && sock.output == old(sock.output) + s.sent
    {
      var sz := RecvLen();
      if sz.Err? {
        return Err(sz.error);
      }
      r := ReadPublishContent(op, sz.value);
    }

    /** Topic length, topic and, when the QoS bits are not zero, the packet identifier;
        the payload size is what the Remaining Length `size` leaves of them. */
    method ReadPublishContent(op: Byte, size: nat) returns (r: Result<Option<Byte>>)
      requires sock != null && sock.Valid() && sock.blocking
      modifies sock`pos, sock`output, this`received
      ensures sock.Valid()
      ensures var s := Inbound.PublishContent(sock.input, op, old(sock.pos), size, cb);
        r == s.result && sock.pos == s.pos && received == old(received) + s.delivered
        && sock.output == old(sock.output) + s.sent
    {
      ghost var p := sock.pos;
      var topicLen := ReadU16();
      if topicLen.None? {
        return Err(Truncated);
      }
      var topic := sock.Read(topicLen.value);
      ghost var q := p + 2 + |topic.value|;
      var rest: int := size as int - (topicLen.value + 2);
      var pid := 0;
      QosBits(op);
      if And(op, 6) != 0 {
        var id := ReadU16();
        if id.None? {
          return Err(Truncated);
        }
        pid := id.value;
        rest := rest - 2;
      }
      r := DeliverPublish(op, topic.value, pid, rest);
    }

    /** Two bytes read as a big-endian integer, `b[0] << 8 | b[1]`; None when the
        stream ends first (indexing the short result fails). */
    method ReadU16() returns (r: Option<nat>)
      requires sock != null && sock.Valid() && sock.blocking
      modifies sock`pos
      ensures sock.Valid()
      ensures r.Some? <==> old(sock.pos) + 2 <= |sock.input|
      ensures r.Some? ==> r.value == U16At(sock.input, old(sock.pos)) && sock.pos == old(sock.pos) + 2
      ensures r.None? ==> sock.pos == |sock.input|
    {
      ghost var p := sock.pos;
      var b := sock.Read(2);
      if |b.value| < 2 {
        return None;
      }
      assert b.value[0] == sock.input[p] && b.value[1] == sock.input[p + 1];
      OrHighByte(b.value[0], b.value[1]);
      return Some(Or(Shl(b.value[0], 8), b.value[1]));
    }

    /** Reads the payload of `size` bytes, calls the callback with it and `topic`, and
        acknowledges QoS 1 with a PUBACK for `pid`; QoS 2 fails. */
    method DeliverPublish(op: Byte, topic: seq<Byte>, pid: nat, size: int) returns (r: Result<Option<Byte>>)
      requires sock != null && sock.Valid() && sock.blocking && pid < 0x1_0000
      modifies sock`pos, sock`output, this`received
      ensures sock.Valid()
      ensures var s := Inbound.Deliver(sock.input, op, topic, pid, old(sock.pos), size, cb);
        r == s.result && sock.pos == s.pos && received == old(received) + s.delivered
        && sock.output == old(sock.output) + s.sent
    {
      if size < 0 {
        return Err(BadLength);
      }
      var m := sock.Read(size);
      if !cb {
        return Err(NoCallback);
      }
      received := received + [Message(topic, m.value)];
      QosBits(op);
      if And(op, 6) == 2 {
        var ack := new Byte[4] [0x40, 0x02, 0, 0];
        PackU16(ack, 2, pid);
        sock.Write(ack[..]);
      } else if And(op, 6) == 4 {
        return Err(QosUnsupported);
      }
      return Ok(None);
    }

    /** `check_msg`: `wait_msg` with a non-blocking first read. */
    method CheckMsg() returns (r: Result<Option<Byte>>)
      requires sock != null && sock.Valid()
      modifies sock`pos, sock`output, sock`blocking, this`received
      ensures sock.Valid() && sock.blocking
      ensures var s := Inbound.WaitMsg(sock.input, old(sock.pos), !sock.ready, cb);
        r == s.result && sock.pos == s.pos && received == old(received) + s.delivered
        && sock.output == old(sock.output) + s.sent
    {
      sock.SetBlocking(false);
      r := WaitMsg();
    }
  }
}
