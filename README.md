# MQTTClient: a verified model of a MicroPython MQTT 3.1.1 client

This project models the client engine `MQTTClient` of `iot_data_hub.py`. It is a small
MQTT 3.1.1 client that:

- builds CONNECT, PUBLISH, SUBSCRIBE, PINGREQ and DISCONNECT packets in byte buffers;
- checks CONNACK and SUBACK;
- waits for the PUBACK of a QoS 1 publish;
- decodes incoming PUBLISH packets in `wait_msg`, hands them to a callback and answers
  QoS 1 ones with a PUBACK.

The model has six modules.

- `Bits`: Python's `|`, `&`, `<<` and `>>` on non-negative integers, defined bit by bit, with
  lemmas that connect them to ordinary arithmetic.
- `Wire`: bytes, the 16-bit big-endian integer, length-prefixed strings (section 1.5.3 of
  MQTT 3.1.1) and the Remaining Length encoding (section 2.2.3), with its decoder.
- `Packets`: every packet the client writes or checks, as a byte sequence, and reference
  parsers that read packets the way a broker does. The round-trip lemmas connect the two.
- `Inbound`: the behaviour of `wait_msg` and of the two wait loops as functions of the
  broker's byte stream and a read position. A `Step` records the result, the new
  position, the messages handed to the callback and the bytes written back.
- `Transport` and `Client`:
  - The socket is a class: the whole input stream, a read cursor, an output log and the
    blocking flag.
  - `MQTTClient` is a class with the fields of the source: settings, packet identifier
    counter, callback flag, last-will fields and socket, plus a log of the (topic,
    message) pairs delivered to the callback.
  - Each method updates those fields and the byte buffers (`premsg`, `msg`, `pkt`) in
    place, and is proved against the functions of `Packets` and `Inbound`.

The code is modelled as written, including the one-byte SUBSCRIBE length recorded under
"## Findings":

- The packet identifier never wraps. The model requires it to stay at most 65535, the
  range of the two bytes `"!H"` packs; what the struct module does with a larger value is
  not modelled. The same holds for string lengths and for the one byte `"!B"` packs.
- The model requires a PUBLISH QoS below 128. `publish` ors `qos << 1` into a
  `bytearray` byte, and what that does with a value above 255 is not modelled.
- `_recv_len` reads any number of continuation bytes.
- The wait loops have no timeout. They end because every round reads at least one byte
  and the end of the stream is an error.
- QoS 2 publishing fails only after the whole packet has been written.

How assertions become contracts:

- An assertion on data sent by the broker becomes an error outcome (`ProtocolViolation`).
- An assertion on the caller's arguments or state becomes a precondition. Examples are
  the QoS and topic checks of `set_last_will`, `keepalive < 65536`, `sz < 2097152`, and
  `subscribe` requiring a callback. A case in which the source fails with a `TypeError`
  on the client's own settings is excluded the same way: `connect` requires a password
  whenever a user name is set, because `len(self.pswd)` fails on `None`.
- Strings (client id, topics, messages, user name, password) are byte strings, and
  their length is their number of bytes.
- The default arguments of the source are kept as Dafny default parameters.
- Python exceptions become `Packets.Error` values:
  - indexing a short read is `Truncated`;
  - an empty first read is `EndOfStream`;
  - `MQTTException` is `Rejected(code)`;
  - calling a missing callback is `NoCallback`;
  - `assert 0` for QoS 2 is `QosUnsupported`.

## Model

| member | source | states |
|---|---|---|
| Bits.AndLowMask | iot_data_hub.py:173 | `a & (2^k - 1)` is `a mod 2^k`, so `b & 0x7f` keeps the seven value bits |
| Bits.OrShifted | iot_data_hub.py:173 | or-ing a group shifted above every bit of `n` adds it to `n` |
| Bits.TopBit | iot_data_hub.py:174 | `b & 0x80` is zero exactly when the byte is below 0x80 |
| Bits.TypeNibble | iot_data_hub.py:313 | `op & 0xf0` is 16 times the packet type, the high four bits |
| Bits.QosBits | iot_data_hub.py:320 | `op & 6` is twice the QoS field, bits 1 and 2 of the type byte |
| Bits.OrHighByte | iot_data_hub.py:317 | shifting the high byte left by 8 and or-ing in the low byte gives the big-endian value `256 hi + lo` |
| Wire.U16 | iot_data_hub.py:165 | `struct.pack("!H", x)` is two bytes whose big-endian value is `x` |
| Wire.U16Injective | iot_data_hub.py:292 | two identifiers pack to the same two bytes exactly when they are equal |
| Wire.Str | iot_data_hub.py:164-166 | a string is sent as its 16-bit length and then its bytes |
| Wire.StrRoundTrip | iot_data_hub.py:164-166 | reading a length-prefixed string gives back the string and its size, whatever follows |
| Wire.DecodeLen | iot_data_hub.py:168-176 | decoding a Remaining Length consumes at least one byte and never reads past the stream |
| Wire.DecodeEncodeLen | iot_data_hub.py:213-218 | decoding the encoding of `n` gives `n` and consumes exactly the encoding's bytes |
| Wire.EncodeLenShape | iot_data_hub.py:213-218 | every encoded byte but the last has bit 7 set, and byte `j` holds bits `7j..7j+6` of the value |
| Wire.EncodeLenSize | iot_data_hub.py:249-255 | the encoding takes at most `k` bytes exactly when the value is below `2^(7k)`: 3 bytes below 2097152, 4 below 2^28 |
| Wire.DecodeLenUnbounded | iot_data_hub.py:168-176 | any number of 0x80 bytes followed by 0x00 decodes, to zero: the decoder has no byte limit |
| Packets.ConnectFlags | iot_data_hub.py:200-211 | the flags byte: bit 0 clear, bit 1 clean session, bit 2 will, bits 3-4 will QoS, bit 5 will retain, bits 6-7 set exactly when a user is given |
| Packets.ConnectHeader | iot_data_hub.py:197 | the variable header is the 10 bytes counted by `sz = 10 + ...` |
| Packets.ConnectLength | iot_data_hub.py:199-209 | the CONNECT body length is 10, plus 2 plus the length of every string sent, as `connect` adds it up |
| Packets.WillRoundTrip | iot_data_hub.py:208-211 | the will flags make a broker read back the will topic, message, QoS and retain that follow |
| Packets.OptStrRoundTrip | iot_data_hub.py:227-229 | an optional string is read back when its flag is set and takes no bytes otherwise |
| Packets.LoginRoundTrip | iot_data_hub.py:201-203 | the 0xC0 flags make a broker read back user name and password, and nothing when no user is set |
| Packets.Framed | iot_data_hub.py:213-220 | type byte, Remaining Length and body: the length decodes to the body size, and the body follows to the end |
| Packets.ConnectBodyRoundTrip | iot_data_hub.py:196-211 | a broker reads protocol name "MQTT", level 4, the flags and the keep-alive from the variable header |
| Packets.ConnectPayloadRoundTrip | iot_data_hub.py:223-229 | the payload is read back in the order client id, will topic and message, user name and password |
| Packets.ConnectRoundTrip | iot_data_hub.py:196-229 | a broker reads back from CONNECT exactly the client id, clean-session flag, keep-alive, will and credentials the client put in it |
| Packets.ConnAck | iot_data_hub.py:230-234 | accepted exactly when the bytes are 0x20 0x02 and the return code is 0, then the result is `resp[2] & 1`; a non-zero code is reported; anything else is a protocol violation or a short read |
| Packets.ConnAckOfPacket | iot_data_hub.py:230-234 | a broker's CONNACK gives back its session-present flag for code 0 and its code otherwise |
| Packets.PublishHeaderFields | iot_data_hub.py:244-245 | for QoS 0 to 3 the first PUBLISH byte is `0x30 + 2 qos + retain`: type 3, DUP clear, the QoS bits and RETAIN |
| Packets.PublishBody | iot_data_hub.py:246-248 | the PUBLISH body is `2 + len(topic) + len(msg)` bytes, 2 more when QoS is not 0 |
| Packets.SubscribeBody | iot_data_hub.py:282 | the SUBSCRIBE body is `2 + 2 + len(topic) + 1` bytes |
| Packets.SubscribeRoundTrip | iot_data_hub.py:280-286 | a broker reads back identifier, topic filter and requested QoS from SUBSCRIBE |
| Packets.SubscribeAsWrittenAgrees | iot_data_hub.py:282 | up to 122 topic bytes, the single `"!B"` length byte is the correct Remaining Length |
| Packets.SubscribeAsWrittenMisframed | iot_data_hub.py:282 | with 123 topic bytes the length byte is 0x80, the length decodes as 0 and the packet does not parse |
| Packets.SubAck | iot_data_hub.py:290-295 | accepted exactly when bytes 1-2 are the identifier sent and byte 3 is not 0x80; 0x80 with that identifier is a refusal; anything else is a protocol violation or a short read |
| Packets.SubAckOfPacket | iot_data_hub.py:292-295 | a SUBACK for another identifier is a failure, not skipped; for the identifier sent, 0x80 is a refusal and anything else success |
| Inbound.WaitMsg | iot_data_hub.py:301-331 | a call stays within the stream, and a successful blocking call reads at least one byte |
| Inbound.WaitMsgShape | iot_data_hub.py:301-331 | idle reads nothing; at most one message goes to the callback, and only when one is set; the only reply is a PUBACK after a delivery; a PUBACK goes out exactly when a PUBLISH with QoS bits 1 is delivered, so QoS bits 3 read an identifier but get no reply; a returned type byte is the one byte read |
| Inbound.PingResponse | iot_data_hub.py:308-311 | PINGRESP succeeds exactly when its length byte is 0; it returns None and consumes two bytes |
| Inbound.PingRespConsumed | iot_data_hub.py:308-311 | 0xD0 0x00 is consumed and nothing is returned, delivered or sent |
| Inbound.OtherTypeReturned | iot_data_hub.py:312-314 | any other non-PUBLISH type byte is returned, and only that byte is read |
| Inbound.PublishReceived | iot_data_hub.py:315-331 | a PUBLISH framed as the client frames its own is delivered once, with topic and payload intact, and consumed entirely; QoS 1 is answered by a PUBACK echoing the identifier; QoS 2 fails after the delivery; QoS bits 3 are delivered with their identifier read and no reply; DUP and RETAIN change nothing |
| Inbound.PublishRoundTrip | iot_data_hub.py:243-264 | the PUBLISH packets the client writes with QoS 0 to 3 are read back by `wait_msg` as sent |
| Inbound.PubAckRound | iot_data_hub.py:267-274 | a round of the PUBACK wait stays within the stream, and a round that does not end the wait reads at least one byte |
| Inbound.AwaitPubAck | iot_data_hub.py:266-274 | the PUBACK wait never reads past the stream |
| Inbound.PubAckRoundEnds | iot_data_hub.py:268-274 | a round ends the wait successfully only right after the four bytes 0x40 0x02 and the identifier sent |
| Inbound.PubAckOnlyOnMatch | iot_data_hub.py:266-274 | the PUBACK wait succeeds only right after a PUBACK 0x40 0x02 carrying the identifier sent |
| Inbound.PubAckMatched | iot_data_hub.py:268-274 | a PUBACK with the identifier sent ends the wait at once |
| Inbound.PubAckOtherSkipped | iot_data_hub.py:271-273 | a PUBACK with another identifier is consumed and the wait goes on |
| Inbound.PubAckBadLength | iot_data_hub.py:269-270 | 0x40 followed by a length other than 2 ends the wait with a failure |
| Inbound.PubAckWaitSkipsOther | iot_data_hub.py:266-268 | any other type byte is skipped after reading only that byte |
| Inbound.PubAckWaitContinues | iot_data_hub.py:266-267 | a PUBLISH or PINGRESP met while waiting is processed, and the wait goes on after it |
| Inbound.SubAckRound | iot_data_hub.py:288-295 | a round of the SUBACK wait stays within the stream, and a round that does not end the wait reads at least one byte |
| Inbound.AwaitSubAck | iot_data_hub.py:287-295 | the SUBACK wait never reads past the stream |
| Inbound.SubAckRoundEnds | iot_data_hub.py:289-295 | a round ends the wait successfully only right after 0x90, the identifier sent and a code other than 0x80 |
| Inbound.SubAckOnlyOnMatch | iot_data_hub.py:287-295 | the SUBACK wait succeeds only right after a SUBACK carrying the identifier sent and a code other than 0x80 |
| Inbound.SubAckReceived | iot_data_hub.py:289-295 | a SUBACK ends the wait: success for the identifier sent, a refusal for 0x80, a failure for another identifier |
| Inbound.SubAckWaitSkipsOther | iot_data_hub.py:287-289 | any other type byte is skipped after reading only that byte |
| Client.PutRemainingLength | iot_data_hub.py:213-218 | the loop writes the Remaining Length encoding of `sz` at index 1, returns the index of its last byte and leaves the rest of the buffer alone |
| Client.RemainingLengthStep | iot_data_hub.py:214-216 | the low seven bits of `sz` or-ed with 0x80 are the first byte of the encoding, and `sz >> 7` encodes to the rest |
| Client.PackU16 | iot_data_hub.py:262 | `struct.pack_into("!H", buf, off, x)` puts the two bytes of `x` at `off` and changes nothing else |
| Client.PublishWritten | iot_data_hub.py:257-264 | header, topic string, optional identifier and message written in turn make up the PUBLISH packet |
| Client.SubscribeWritten | iot_data_hub.py:282-286 | `pkt` (0x82, the one-byte length `5 + len(topic)`, the identifier), the topic string and the QoS byte make up the SUBSCRIBE packet as `subscribe` writes it |
| Client.ConnectWritten | iot_data_hub.py:220-229 | `premsg[:i+2]`, then `msg`, then the strings make up the CONNECT packet |
| Client.RecvLenStep | iot_data_hub.py:173-176 | the group read lands above the value so far, and what follows lands seven bits higher |
| Client.RecvLenByte | iot_data_hub.py:172-174 | bit 7 of the byte says whether more follow, and or-ing `(b & 0x7f) << sh` into `n` adds the group at bit `sh` |
| Client.RecvLenLast | iot_data_hub.py:174-175 | after the last byte the value built up is the decoded Remaining Length |
| Client.RecvLenAdvance | iot_data_hub.py:173-176 | after a continuation byte, what is left to decode moves one byte on |
| Client.WillFlagBits | iot_data_hub.py:210 | 0x4 or-ed with `(q & 1) << 3` and `(q & 2) << 3` is `4 + 8q` for QoS 0 to 2 |
| Client.ConnectFlagsSum | iot_data_hub.py:200-211 | the flags byte is the sum of its bits |
| Client.LoginFlagsStep | iot_data_hub.py:203 | or-ing 0xC0 into the clean-session bit adds 0xC0 |
| Client.WillFlagsStep | iot_data_hub.py:210 | or-ing in the will flag and QoS adds `4 + 8q` |
| Client.RetainFlagStep | iot_data_hub.py:211 | or-ing in `retain << 5` adds `32 retain` |
| Client.KeepAliveBytes | iot_data_hub.py:206-207 | or-ing `k >> 8` into `msg[7]` and `k & 0xff` into `msg[8]`, both zero, stores the keep-alive big-endian |
| Client.MQTTClient.Will | iot_data_hub.py:208 | the will `connect` announces, the abstraction of `if self.lw_topic:`: there is one exactly when the will topic is non-empty |
| Client.MQTTClient.constructor | iot_data_hub.py:144-162 | port 0 becomes 8883 with TLS and 1883 without; no socket, identifier 0, no callback, no will |
| Client.MQTTClient.SendStr | iot_data_hub.py:164-166 | `_send_str` appends the length-prefixed string to the output |
| Client.MQTTClient.RecvLen | iot_data_hub.py:168-176 | `_recv_len` returns the decoded Remaining Length and consumes exactly its bytes; a stream that ends first is a failure with the stream used up |
| Client.MQTTClient.SetCallback | iot_data_hub.py:178-179 | the callback is set as given |
| Client.MQTTClient.SetLastWill | iot_data_hub.py:181-187 | with a non-empty topic and QoS 0 to 2, the will `connect` will announce is the one given |
| Client.MQTTClient.Connect | iot_data_hub.py:189-234 | `connect` writes exactly the CONNECT packet for its settings and returns the CONNACK check of the next four bytes |
| Client.MQTTClient.SendConnect | iot_data_hub.py:196-229 | the bytes written are exactly the CONNECT packet |
| Client.MQTTClient.ConnectFixedHeader | iot_data_hub.py:196-218 | `premsg[:i+2]` is 0x10, the Remaining Length and the zero that starts the protocol name |
| Client.MQTTClient.ConnectHeaderBytes | iot_data_hub.py:197-211 | `msg` is the variable header with the connect flags and the keep-alive, and `sz` is the CONNECT body length |
| Client.MQTTClient.ConnectFlagsByte | iot_data_hub.py:200-211 | the or-ed bits are the connect flags byte |
| Client.MQTTClient.SendConnectPayload | iot_data_hub.py:223-229 | the strings are written in the order client id, will topic and message, user name and password |
| Client.MQTTClient.ReadConnAck | iot_data_hub.py:230-234 | four bytes are read and checked as a CONNACK |
| Client.MQTTClient.Disconnect | iot_data_hub.py:236-238 | DISCONNECT 0xE0 0x00 is written and the socket closed |
| Client.MQTTClient.Ping | iot_data_hub.py:240-241 | PINGREQ 0xC0 0x00 is written |
| Client.MQTTClient.Publish | iot_data_hub.py:243-276 | the PUBLISH packet is written, with a new identifier exactly when QoS is not 0; QoS 1 then runs the PUBACK wait for that identifier; QoS 2 fails after the packet is sent |
| Client.MQTTClient.SendPublish | iot_data_hub.py:244-264 | the identifier grows by one exactly when QoS is not 0, and the bytes written are the PUBLISH packet |
| Client.MQTTClient.PublishFixedHeader | iot_data_hub.py:244-255 | `pkt[:i+1]` is the PUBLISH type byte and the Remaining Length |
| Client.MQTTClient.WaitPubAck | iot_data_hub.py:265-274 | the loop reads, delivers and writes exactly what the PUBACK wait does |
| Client.MQTTClient.PubAckRound | iot_data_hub.py:267-274 | one pass of the loop does exactly one round of the PUBACK wait |
| Client.MQTTClient.Subscribe | iot_data_hub.py:278-295 | the identifier grows by one, SUBSCRIBE is written with its one-byte length, then the SUBACK wait runs for that identifier |
| Client.MQTTClient.SendSubscribe | iot_data_hub.py:280-286 | the bytes written are the SUBSCRIBE packet as `subscribe` writes it, its length packed in one byte, for the new identifier |
| Client.MQTTClient.WaitSubAck | iot_data_hub.py:287-295 | the loop reads, delivers and writes exactly what the SUBACK wait does |
| Client.MQTTClient.SubAckRound | iot_data_hub.py:288-295 | one pass of the loop does exactly one round of the SUBACK wait |
| Client.MQTTClient.WaitMsg | iot_data_hub.py:301-331 | `wait_msg` reads, delivers, writes and returns exactly what `Inbound.WaitMsg` describes, and leaves the socket blocking |
| Client.MQTTClient.ReceivePublish | iot_data_hub.py:315-331 | an incoming PUBLISH is processed as `Inbound.Publish` describes |
| Client.MQTTClient.ReadPublishContent | iot_data_hub.py:316-324 | topic, optional identifier and payload size are taken as `Inbound.PublishContent` describes |
| Client.MQTTClient.ReadU16 | iot_data_hub.py:316-317 | two bytes read as a big-endian integer; none when the stream ends first |
| Client.MQTTClient.DeliverPublish | iot_data_hub.py:324-331 | the payload goes to the callback once, then a PUBACK for QoS 1 or a failure for QoS 2 |
| Client.MQTTClient.CheckMsg | iot_data_hub.py:336-338 | `check_msg` is `wait_msg` with a non-blocking first read |

## Left out

- Inbound.PublishRoundTrip: covers QoS 0 to 3 only. From QoS 4 up, `qos << 1` reaches the DUP bit and then the packet-type bits, so the packet is no longer read back as a PUBLISH of that QoS.
- The `IoTDataHub` wrapper (iot_data_hub.py:17-129) is not part of this model: Wi-Fi, the polling thread, printing, random identifiers and topic prefixing.
- Client.MQTTClient.Connect: creating the socket, `getaddrinfo` and the TLS wrapping are I/O done by the environment. The connected socket is a parameter. `server`, `port` and `ssl` are stored but not used, and `ssl_params` is not modelled.
- `MQTTClient.sleep` (iot_data_hub.py:340-346) is wall-clock polling with floating point, so it is not modelled.
- Concurrency between a polling thread and foreground calls is not modelled.
- Transport.Socket: a non-blocking read finds data or not according to a flag the environment sets. There is no timing.
- Client.MQTTClient.SetCallback: the callback is a flag saying whether one is set. Its calls are recorded in the ghost `received` log. What the callback itself does is not modelled.
- Client.MQTTClient.DeliverPublish: a PUBLISH whose Remaining Length is smaller than its own topic and identifier gives a negative payload size. Passing that to `read` has behaviour outside the client, so the model reports `BadLength` there.
- Client.MQTTClient.SetLastWill: the will message is a byte string, so `None` cannot be passed. With `None` the source fails in `connect` with a `TypeError` (`len(self.lw_msg)`), which is not modelled.
- Client.MQTTClient.SendConnect: requires a password whenever a user name is set. Without one the source fails with a `TypeError` at `len(self.pswd)`, which is not modelled.
- Client.MQTTClient.ConnectFlagsByte: the flags are or-ed together in a local and stored in `msg[6]` once. The source updates `msg[6]` in place at each step.
- Client.MQTTClient.Subscribe: requires `5 + len(topic) < 256`, so that the length fits the one byte `"!B"` packs. What the struct module does with a larger value is not modelled.
- Wire.Str: strings are byte strings. In the source, `len(s)` of a Python `str` counts characters while `write` sends its UTF-8 bytes. So for non-ASCII text the length prefixes and the Remaining Length undercount the bytes sent, and the packet is misframed. The model does not capture that.
- Client.MQTTClient.SendStr: takes a byte string; see Wire.Str.
- Client.MQTTClient.Publish: topic and message are byte strings; see Wire.Str.
- Client.MQTTClient.Connect: client id, will topic and message, user name and password are byte strings; see Wire.Str.

## Findings

| source | as written | input that shows it | evidently intended | confidence | as-written member | corrected member |
|---|---|---|---|---|---|---|
| iot_data_hub.py:282 | `subscribe` packs the Remaining Length `5 + len(topic)` as one byte with `"!B"` | a 123-byte topic filter: the length byte is 0x80, so a broker reads it as a continuation byte, and the packet does not parse | the Remaining Length encoded as section 2.2.3 of MQTT 3.1.1 requires, as in `connect` and `publish` | not executed | Packets.SubscribeAsWrittenMisframed | Packets.SubscribeRoundTrip |

`Client.MQTTClient.SendSubscribe` and `Client.MQTTClient.Subscribe` write the packet as the
code does (`Packets.SubscribePacketAsWritten`). The correctly framed packet is
`Packets.SubscribePacket`, and `Packets.SubscribeAsWrittenAgrees` shows that the two agree
for topic filters of up to 122 bytes.
