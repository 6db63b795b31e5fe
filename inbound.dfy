/** What the client does with the bytes the broker sends: one call of `wait_msg` as a
    function of the input stream and the read position, and the two loops that call it
    while waiting for PUBACK and SUBACK. */
module Inbound {
  import opened Bits
  import opened Wire
  import opened Packets

  /** A message handed to the callback: topic and payload. */
  datatype Message = Message(topic: seq<Byte>, msg: seq<Byte>)

  /** The outcome of reading from the stream: the result, the read position afterwards,
      the messages handed to the callback and the bytes written in reply. */
  datatype Step<+T> = Step(result: Result<T>, pos: nat, delivered: seq<Message>, sent: seq<Byte>)

  /** What one `wait_msg` call does on `input` read from `pos`. `idle` says that the read
      was non-blocking and found no data. */
  function WaitMsg(input: seq<Byte>, pos: nat, idle: bool, cb: bool): (r: Step<Option<Byte>>)
    requires pos <= |input|
    ensures pos <= r.pos <= |input|
    ensures !idle && r.result.Ok? ==> r.pos > pos
  {
    if idle then Step(Ok(None), pos, [], [])
    else if pos == |input| then Step(Err(EndOfStream), pos, [], [])
    else if input[pos] == 0xD0 then PingResponse(input, pos + 1)
    else if Kind(input[pos]) != 3 then Step(Ok(Some(input[pos])), pos + 1, [], [])
    else Publish(input, input[pos], pos + 1, cb)
  }

  /** What a `wait_msg` call can do: when idle it reads nothing; a successful call reads
      at least one byte; at most one message reaches the callback, and only when one is
      set; a reply is only ever a PUBACK, sent after a delivery and exactly when the QoS bits
      of the PUBLISH are 1 (QoS bits 3 read an identifier but get no reply); a returned type byte is the
      byte read and nothing else happens. */
  lemma WaitMsgShape(input: seq<Byte>, pos: nat, idle: bool, cb: bool)
    requires pos <= |input|
    ensures var r := WaitMsg(input, pos, idle, cb);
      && (idle ==> r == Step(Ok(None), pos, [], []))
      && |r.delivered| <= 1 && (r.delivered != [] ==> cb)
      && (r.sent != [] ==> |r.delivered| == 1 && |r.sent| == 4 && r.sent[..2] == [0x40, 0x02] && r.result == Ok(None))
      && (r.sent != [] ==> !idle && pos < |input| && Kind(input[pos]) == 3 && QosOf(input[pos]) == 1)
      && (r.delivered != [] ==> pos < |input| && (r.sent != [] <==> QosOf(input[pos]) == 1))
      && (r.result.Ok? && r.result.value.Some? ==>
            r.pos == pos + 1 && r.result.value.value == input[pos] && r.delivered == [] && r.sent == [])
  {
  }

  /** PINGRESP: the length byte must be zero; nothing is returned. */
  function PingResponse(input: seq<Byte>, pos: nat): (r: Step<Option<Byte>>)
    requires 0 < pos <= |input|
    ensures pos <= r.pos <= |input| && r.delivered == [] && r.sent == []
    ensures r.result.Ok? <==> pos < |input| && input[pos] == 0
    ensures r.result.Ok? ==> r.result.value == None && r.pos == pos + 1
  {
    if pos == |input| then Step(Err(Truncated), pos, [], [])
    else if input[pos] != 0 then Step(Err(ProtocolViolation), pos + 1, [], [])
    else Step(Ok(None), pos + 1, [], [])
  }

  /** An incoming PUBLISH whose type byte `op` has been read: Remaining Length, topic,
      the packet identifier when the QoS bits are non-zero, and the payload. */
  function Publish(input: seq<Byte>, op: Byte, pos: nat, cb: bool): (r: Step<Option<Byte>>)
    requires 0 < pos <= |input|
  {
    var len := DecodeLen(input, pos);
    if len.None? then Step(Err(Truncated), |input|, [], [])
    else PublishContent(input, op, pos + len.value.1, len.value.0, cb)
  }

  /** The rest of an incoming PUBLISH once its Remaining Length `size` has been read. */
  function PublishContent(input: seq<Byte>, op: Byte, p: nat, size: nat, cb: bool): (r: Step<Option<Byte>>)
    requires p <= |input|
  {
    if |input| < p + 2 then Step(Err(Truncated), |input|, [], [])
    else
      var topic := Take(input, p + 2, U16At(input, p));
      var q := p + 2 + |topic|;
      if QosOf(op) != 0 && |input| < q + 2 then Step(Err(Truncated), |input|, [], [])
      else
        var id := if QosOf(op) == 0 then 0 else 2;
        Deliver(input, op, topic, if QosOf(op) == 0 then 0 else U16At(input, q), q + id, size - (U16At(input, p) + 2) - id, cb)
  }

  /** Reads the payload of `size` bytes and hands it, with `topic`, to the callback. */
  function Deliver(input: seq<Byte>, op: Byte, topic: seq<Byte>, pid: nat, pos: nat, size: int, cb: bool): (r: Step<Option<Byte>>)
    requires pos <= |input| && pid < 0x1_0000
  {
    if size < 0 then Step(Err(BadLength), pos, [], [])
    else
      var msg := Take(input, pos, size);
      Delivered(op, topic, pid, msg, cb, pos + |msg|)
  }

  /** The callback is called with `topic` and `msg` (and fails when none is set); then
      QoS 1 is acknowledged with a PUBACK and QoS 2 fails. The step ends at `end`. */
  function Delivered(op: Byte, topic: seq<Byte>, pid: nat, msg: seq<Byte>, cb: bool, end: nat): Step<Option<Byte>>
    requires pid < 0x1_0000
  {
    Step(if !cb then Err(NoCallback) else if QosOf(op) == 2 then Err(QosUnsupported) else Ok(None),
         end,
         if cb then [Message(topic, msg)] else [],
         if cb && QosOf(op) == 1 then PubAck(pid) else [])
  }

  /** Runs `first`, then continues with `rest` from where it stopped. */
  function Then<S, T>(first: Step<S>, rest: Step<T>): Step<T>
  {
    Step(rest.result, rest.pos, first.delivered + rest.delivered, first.sent + rest.sent)
  }

  /** One round of the QoS 1 wait of `publish`: a `wait_msg` call and, when it returns
      0x40, the length byte, which must be 2, and the identifier. The result says whether
      the wait is over, which it is when the identifier is `pid`. */
  function PubAckRound(input: seq<Byte>, pos: nat, pid: nat, cb: bool): (r: Step<bool>)
    requires pos <= |input|
    ensures pos <= r.pos <= |input|
    ensures r.result == Ok(false) ==> pos < r.pos
  {
    var s := WaitMsg(input, pos, false, cb);
    if s.result.Err? then Step(Err(s.result.error), s.pos, s.delivered, s.sent)
    else if s.result.value != Some(0x40) then Step(Ok(false), s.pos, s.delivered, s.sent)
    else if s.pos == |input| || input[s.pos] != 0x02 then
      Step(Err(ProtocolViolation), if s.pos == |input| then s.pos else s.pos + 1, s.delivered, s.sent)
    else if |input| < s.pos + 3 then Step(Err(Truncated), |input|, s.delivered, s.sent)
    else Step(Ok(U16At(input, s.pos + 1) == pid), s.pos + 3, s.delivered, s.sent)
  }

  /** The QoS 1 wait of `publish`: rounds until one ends it. */
  function AwaitPubAck(input: seq<Byte>, pos: nat, pid: nat, cb: bool): (r: Step<()>)
    requires pos <= |input|
    ensures pos <= r.pos <= |input|
    decreases |input| - pos
  {
    var s := PubAckRound(input, pos, pid, cb);
    if s.result.Err? then Step(Err(s.result.error), s.pos, s.delivered, s.sent)
    else if s.result.value then Step(Ok(()), s.pos, s.delivered, s.sent)
    else Then(s, AwaitPubAck(input, s.pos, pid, cb))
  }

  /** One round of the wait of `subscribe`: a `wait_msg` call and, when it returns 0x90,
      four bytes checked as a SUBACK for `pid`, which end the wait. */
  function SubAckRound(input: seq<Byte>, pos: nat, pid: nat, cb: bool): (r: Step<bool>)
    requires pos <= |input| && pid < 0x1_0000
    ensures pos <= r.pos <= |input|
    ensures r.result == Ok(false) ==> pos < r.pos
  {
    var s := WaitMsg(input, pos, false, cb);
    if s.result.Err? then Step(Err(s.result.error), s.pos, s.delivered, s.sent)
    else if s.result.value != Some(0x90) then Step(Ok(false), s.pos, s.delivered, s.sent)
    else
      var resp := Take(input, s.pos, 4);
      var ack := SubAck(resp, pid);
      Step(if ack.Ok? then Ok(true) else Err(ack.error), s.pos + |resp|, s.delivered, s.sent)
  }

  /** The wait of `subscribe`: rounds until one ends it. */
  function AwaitSubAck(input: seq<Byte>, pos: nat, pid: nat, cb: bool): (r: Step<()>)
    requires pos <= |input| && pid < 0x1_0000
    ensures pos <= r.pos <= |input|
    decreases |input| - pos
  {
    var s := SubAckRound(input, pos, pid, cb);
    if s.result.Err? then Step(Err(s.result.error), s.pos, s.delivered, s.sent)
    else if s.result.value then Step(Ok(()), s.pos, s.delivered, s.sent)
    else Then(s, AwaitSubAck(input, s.pos, pid, cb))
  }

  /** PINGRESP is consumed, two bytes, and nothing is returned or delivered. */
  lemma {:induction false} PingRespConsumed(input: seq<Byte>, pos: nat, cb: bool)
    requires pos + 2 <= |input| && input[pos..pos + 2] == PingResp
    ensures WaitMsg(input, pos, false, cb) == Step(Ok(None), pos + 2, [], [])
  {
    assert input[pos] == input[pos..pos + 2][0];
    assert input[pos + 1] == input[pos..pos + 2][1];
  }

  /** A type byte other than PUBLISH and PINGRESP is returned, and only that byte is read. */
  lemma {:induction false} OtherTypeReturned(input: seq<Byte>, pos: nat, cb: bool)
    requires pos < |input| && Kind(input[pos]) != 3 && input[pos] != 0xD0
    ensures WaitMsg(input, pos, false, cb) == Step(Ok(Some(input[pos])), pos + 1, [], [])
  {
  }

  /** `x` lies in `input` at offset `p`. */
  predicate Located(input: seq<Byte>, p: nat, x: seq<Byte>)
    decreases |x|
  {
    p + |x| <= |input| && (|x| == 0 || (input[p] == x[0] && Located(input, p + 1, x[1..])))
  }

  lemma {:induction false} LocatedSplit(input: seq<Byte>, p: nat, x: seq<Byte>, y: seq<Byte>)
    requires Located(input, p, x + y)
    ensures Located(input, p, x) && Located(input, p + |x|, y)
    decreases |x|
  {
    if |x| == 0 {
      assert x + y == y;
    } else {
      assert (x + y)[1..] == x[1..] + y;
      LocatedSplit(input, p + 1, x[1..], y);
    }
  }

  lemma {:induction false} LocatedTake(input: seq<Byte>, p: nat, x: seq<Byte>)
    requires Located(input, p, x)
    ensures Take(input, p, |x|) == x
    decreases |x|
  {
    if |x| != 0 {
      LocatedTake(input, p + 1, x[1..]);
      assert x == [x[0]] + x[1..];
    }
  }

  lemma LocatedU16(input: seq<Byte>, p: nat, v: nat)
    requires v < 0x1_0000 && Located(input, p, U16(v))
    ensures p + 2 <= |input| && U16At(input, p) == v
  {
    assert U16(v)[1..][0] == U16(v)[1];
  }

  lemma {:induction false} LocatedLen(input: seq<Byte>, p: nat, n: nat)
    requires Located(input, p, EncodeLen(n))
    ensures DecodeLen(input, p) == Some((n, |EncodeLen(n)|))
    decreases n
  {
    if n >= 128 {
      assert EncodeLen(n)[1..] == EncodeLen(n / 128);
      LocatedLen(input, p + 1, n / 128);
    }
  }

  /** The fields of a PUBLISH after its Remaining Length, at `p`: the topic length and the
      topic, the packet identifier when `qos` is not zero, and the payload. */
  predicate PublishFieldsAt(input: seq<Byte>, p: nat, topic: seq<Byte>, pid: nat, msg: seq<Byte>, qos: nat)
  {
    && p + 2 <= |input| && U16At(input, p) == |topic|
    && p + 2 + |topic| <= |input| && Take(input, p + 2, |topic|) == topic
    && (qos == 0 ==> p + 2 + |topic| + |msg| <= |input| && Take(input, p + 2 + |topic|, |msg|) == msg)
    && (qos != 0 ==> p + 2 + |topic| + 2 + |msg| <= |input| && U16At(input, p + 2 + |topic|) == pid
                     && Take(input, p + 2 + |topic| + 2, |msg|) == msg)
  }

  /** What `wait_msg` does with a QoS 0 PUBLISH whose fields have been located. */
  lemma {:induction false} PublishQos0Fields(input: seq<Byte>, pos: nat, cb: bool, n: nat, k: nat, topic: seq<Byte>, msg: seq<Byte>)
    requires pos < |input| && Kind(input[pos]) == 3 && QosOf(input[pos]) == 0
    requires DecodeLen(input, pos + 1) == Some((n, k)) && n == 2 + |topic| + |msg|
    requires PublishFieldsAt(input, pos + 1 + k, topic, 0, msg, 0)
    ensures WaitMsg(input, pos, false, cb) == Delivered(input[pos], topic, 0, msg, cb, pos + 1 + k + n)
  {
  }

  /** What `wait_msg` does with a PUBLISH of QoS bits 1, 2 or 3, which carries a packet
      identifier, whose fields have been located. */
  lemma {:induction false} PublishQosFields(input: seq<Byte>, pos: nat, qos: nat, cb: bool, n: nat, k: nat, topic: seq<Byte>, pid: nat, msg: seq<Byte>)
    requires pos < |input| && Kind(input[pos]) == 3 && QosOf(input[pos]) == qos && 1 <= qos <= 3
    requires DecodeLen(input, pos + 1) == Some((n, k)) && n == 2 + |topic| + 2 + |msg|
    requires PublishFieldsAt(input, pos + 1 + k, topic, pid, msg, qos)
    ensures WaitMsg(input, pos, false, cb) == Delivered(input[pos], topic, pid, msg, cb, pos + 1 + k + n)
  {
  }

  /** Where the fields of a PUBLISH variable header and payload lie. */
  lemma {:induction false} PublishBodyLayout(input: seq<Byte>, p: nat, topic: seq<Byte>, msg: seq<Byte>, qos: nat, pid: nat)
    requires |topic| < 0x1_0000 && pid < 0x1_0000
    requires Located(input, p, PublishBody(topic, msg, qos, pid))
    ensures PublishFieldsAt(input, p, topic, pid, msg, qos)
  {
    var a, c := U16(|topic|), if qos > 0 then U16(pid) else [];
    var q := p + 2 + |topic|;
    assert PublishBody(topic, msg, qos, pid) == ((a + topic) + c) + msg;
    LocatedSplit(input, p, (a + topic) + c, msg);
    LocatedSplit(input, p, a + topic, c);
    LocatedSplit(input, p, a, topic);
    LocatedU16(input, p, |topic|);
    LocatedTake(input, p + 2, topic);
    if qos > 0 {
      LocatedU16(input, q, pid);
    }
    LocatedTake(input, q + |c|, msg);
  }

  /** Where the Remaining Length and the fields of a PUBLISH frame placed at `p0` lie. */
  lemma {:induction false} PublishFrameLayout(input: seq<Byte>, p0: nat, topic: seq<Byte>, msg: seq<Byte>, qos: nat, pid: nat)
    requires |topic| < 0x1_0000 && pid < 0x1_0000
    requires Located(input, p0, PublishFrame(topic, msg, qos, pid))
    ensures var n := |PublishBody(topic, msg, qos, pid)|;
      && DecodeLen(input, p0) == Some((n, |EncodeLen(n)|))
      && PublishFieldsAt(input, p0 + |EncodeLen(n)|, topic, pid, msg, qos)
  {
    var body := PublishBody(topic, msg, qos, pid);
    LocatedSplit(input, p0, EncodeLen(|body|), body);
    LocatedLen(input, p0, |body|);
    PublishBodyLayout(input, p0 + |EncodeLen(|body|)|, topic, msg, qos, pid);
  }

  /** An incoming PUBLISH framed as the client frames its own is handed to the callback
      once, with its topic and payload intact, and all of it is consumed; QoS 1 is
      acknowledged with a PUBACK echoing the identifier, QoS 2 fails after the delivery,
      QoS bits 3 are read with their identifier and get no reply, and without a callback the call fails once the payload has been read. Of the type byte
      only the packet type and the QoS bits matter: the DUP and RETAIN flags change
      nothing. */
  lemma {:induction false} PublishReceived(input: seq<Byte>, pos: nat, topic: seq<Byte>, msg: seq<Byte>, qos: nat, pid: nat, cb: bool)
    requires |topic| < 0x1_0000 && pid < 0x1_0000 && qos <= 3
    requires pos < |input| && Kind(input[pos]) == 3 && QosOf(input[pos]) == qos
    requires Located(input, pos + 1, PublishFrame(topic, msg, qos, pid))
    ensures WaitMsg(input, pos, false, cb)
         == Step(if !cb then Err(NoCallback) else if qos == 2 then Err(QosUnsupported) else Ok(None),
                 pos + 1 + |PublishFrame(topic, msg, qos, pid)|,
                 if cb then [Message(topic, msg)] else [],
                 if cb && qos == 1 then PubAck(pid) else [])
  {
    var n := |PublishBody(topic, msg, qos, pid)|;
    PublishFrameLayout(input, pos + 1, topic, msg, qos, pid);
    if qos == 0 {
      PublishQos0Fields(input, pos, cb, n, |EncodeLen(n)|, topic, msg);
    } else {
      PublishQosFields(input, pos, qos, cb, n, |EncodeLen(n)|, topic, pid, msg);
    }
  }

  /** The PUBLISH packets the client sends are read back by `wait_msg` as sent. */
  lemma {:induction false} PublishRoundTrip(input: seq<Byte>, pos: nat, topic: seq<Byte>, msg: seq<Byte>, retain: bool, qos: nat, pid: nat, cb: bool)
    requires |topic| < 0x1_0000 && pid < 0x1_0000 && qos <= 3
    requires Located(input, pos, PublishPacket(topic, msg, retain, qos, pid))
    ensures WaitMsg(input, pos, false, cb)
         == Step(if !cb then Err(NoCallback) else if qos == 2 then Err(QosUnsupported) else Ok(None),
                 pos + |PublishPacket(topic, msg, retain, qos, pid)|,
                 if cb then [Message(topic, msg)] else [],
                 if cb && qos == 1 then PubAck(pid) else [])
  {
    LocatedSplit(input, pos, [PublishHeader(qos, retain)], PublishFrame(topic, msg, qos, pid));
    assert input[pos] == PublishHeader(qos, retain);
    PublishHeaderFields(qos, retain);
    PublishReceived(input, pos, topic, msg, qos, pid, cb);
  }

  /** The PUBACK wait succeeds only right after reading a PUBACK that carries `pid`: the
      type byte 0x40, the length 2 and the identifier. */
  lemma {:induction false} PubAckOnlyOnMatch(input: seq<Byte>, pos: nat, pid: nat, cb: bool)
    requires pos <= |input| && pid < 0x1_0000
    ensures var r := AwaitPubAck(input, pos, pid, cb);
      r.result.Ok? ==>
        pos + 4 <= r.pos && input[r.pos - 4] == 0x40 && input[r.pos - 3] == 0x02 && U16At(input, r.pos - 2) == pid
    decreases |input| - pos
  {
    var s := PubAckRound(input, pos, pid, cb);
    var r := AwaitPubAck(input, pos, pid, cb);
    PubAckRoundEnds(input, pos, pid, cb);
    if s.result == Ok(false) {
      var r' := AwaitPubAck(input, s.pos, pid, cb);
      PubAckOnlyOnMatch(input, s.pos, pid, cb);
      assert r.result == r'.result && r.pos == r'.pos;
    } else {
      assert r.result.Ok? ==> s.result == Ok(true) && r.pos == s.pos;
    }
  }

  /** A round that ends the PUBACK wait has just read that PUBACK. */
  lemma PubAckRoundEnds(input: seq<Byte>, pos: nat, pid: nat, cb: bool)
    requires pos <= |input| && pid < 0x1_0000
    ensures var r := PubAckRound(input, pos, pid, cb);
      r.result == Ok(true) ==>
        pos + 4 == r.pos && input[pos] == 0x40 && input[pos + 1] == 0x02 && U16At(input, pos + 2) == pid
  {
    WaitMsgShape(input, pos, false, cb);
  }

  /** A PUBACK carrying `pid` ends the wait at once. */
  lemma {:induction false} PubAckMatched(input: seq<Byte>, pos: nat, pid: nat, cb: bool)
    requires pid < 0x1_0000 && pos + 4 <= |input| && input[pos..pos + 4] == PubAck(pid)
    ensures AwaitPubAck(input, pos, pid, cb) == Step(Ok(()), pos + 4, [], [])
  {
    assert input[pos] == 0x40 && input[pos + 1] == 0x02;
    assert input[pos + 2..pos + 4] == U16(pid);
    U16AtOf(input, pos + 2, pid);
  }

  /** A PUBACK for another identifier is read and skipped. */
  lemma {:induction false} PubAckOtherSkipped(input: seq<Byte>, pos: nat, pid: nat, other: nat, cb: bool)
    requires pid < 0x1_0000 && other < 0x1_0000 && other != pid
    requires pos + 4 <= |input| && input[pos..pos + 4] == PubAck(other)
    ensures AwaitPubAck(input, pos, pid, cb) == AwaitPubAck(input, pos + 4, pid, cb)
  {
    assert input[pos] == 0x40 && input[pos + 1] == 0x02;
    assert input[pos + 2..pos + 4] == U16(other);
    U16AtOf(input, pos + 2, other);
  }

  /** A 0x40 byte followed by a length other than 2 ends the wait with a failure. */
  lemma {:induction false} PubAckBadLength(input: seq<Byte>, pos: nat, pid: nat, cb: bool)
    requires pos + 2 <= |input| && input[pos] == 0x40 && input[pos + 1] != 0x02
    ensures AwaitPubAck(input, pos, pid, cb) == Step(Err(ProtocolViolation), pos + 2, [], [])
  {
  }

  /** Any other type byte is skipped after reading that byte alone. */
  lemma {:induction false} PubAckWaitSkipsOther(input: seq<Byte>, pos: nat, pid: nat, cb: bool)
    requires pos < |input| && Kind(input[pos]) != 3 && input[pos] != 0xD0 && input[pos] != 0x40
    ensures AwaitPubAck(input, pos, pid, cb) == AwaitPubAck(input, pos + 1, pid, cb)
  {
    OtherTypeReturned(input, pos, cb);
  }

  /** Whatever `wait_msg` handles itself (a PUBLISH, a PINGRESP) is passed through, and
      the PUBACK wait goes on after it. */
  lemma {:induction false} PubAckWaitContinues(input: seq<Byte>, pos: nat, pid: nat, cb: bool)
    requires pos <= |input| && WaitMsg(input, pos, false, cb).result == Ok(None)
    ensures var s := WaitMsg(input, pos, false, cb);
      AwaitPubAck(input, pos, pid, cb) == Then(s, AwaitPubAck(input, s.pos, pid, cb))
  {
  }

  /** The SUBACK wait succeeds only right after a SUBACK whose identifier is `pid` and
      whose return code is not 0x80. */
  lemma {:induction false} SubAckOnlyOnMatch(input: seq<Byte>, pos: nat, pid: nat, cb: bool)
    requires pos <= |input| && pid < 0x1_0000
    ensures var r := AwaitSubAck(input, pos, pid, cb);
      r.result.Ok? ==>
        pos + 5 <= r.pos && input[r.pos - 5] == 0x90 && U16At(input, r.pos - 3) == pid && input[r.pos - 1] != 0x80
    decreases |input| - pos
  {
    var s := SubAckRound(input, pos, pid, cb);
    var r := AwaitSubAck(input, pos, pid, cb);
    SubAckRoundEnds(input, pos, pid, cb);
    if s.result == Ok(false) {
      var r' := AwaitSubAck(input, s.pos, pid, cb);
      SubAckOnlyOnMatch(input, s.pos, pid, cb);
      assert r.result == r'.result && r.pos == r'.pos;
    } else {
      assert r.result.Ok? ==> s.result == Ok(true) && r.pos == s.pos;
    }
  }

  /** A round that ends the SUBACK wait successfully has just read that SUBACK. */
  lemma SubAckRoundEnds(input: seq<Byte>, pos: nat, pid: nat, cb: bool)
    requires pos <= |input| && pid < 0x1_0000
    ensures var r := SubAckRound(input, pos, pid, cb);
      r.result == Ok(true) ==>
        pos + 5 == r.pos && input[pos] == 0x90 && U16At(input, pos + 2) == pid && input[pos + 4] != 0x80
  {
    WaitMsgShape(input, pos, false, cb);
    var s := WaitMsg(input, pos, false, cb);
    if s.result == Ok(Some(0x90)) {
      var resp := Take(input, s.pos, 4);
      if SubAck(resp, pid).Ok? {
        TakeSlice(input, s.pos, 4);
        U16AtOf(input, s.pos + 1, pid);
      }
    }
  }

  /** A SUBACK ends the wait: success for the identifier sent, a refusal for 0x80, and a
      failure, not a skip, for any other identifier. */
  lemma {:induction false} SubAckReceived(input: seq<Byte>, pos: nat, pid: nat, acked: nat, granted: Byte, cb: bool)
    requires pid < 0x1_0000 && acked < 0x1_0000
    requires pos + 5 <= |input| && input[pos..pos + 5] == SubAckPacket(acked, granted)
    ensures AwaitSubAck(input, pos, pid, cb)
         == Step(if acked != pid then Err(ProtocolViolation)
                 else if granted == 0x80 then Err(Rejected(0x80))
                 else Ok(()), pos + 5, [], [])
  {
    assert input[pos] == 0x90;
    assert Take(input, pos + 1, 4) == SubAckPacket(acked, granted)[1..];
    SubAckOfPacket(pid, acked, granted);
  }

  /** Any other type byte is skipped after reading that byte alone. */
  lemma {:induction false} SubAckWaitSkipsOther(input: seq<Byte>, pos: nat, pid: nat, cb: bool)
    requires pid < 0x1_0000
    requires pos < |input| && Kind(input[pos]) != 3 && input[pos] != 0xD0 && input[pos] != 0x90
    ensures AwaitSubAck(input, pos, pid, cb) == AwaitSubAck(input, pos + 1, pid, cb)
  {
    OtherTypeReturned(input, pos, cb);
  }
}
