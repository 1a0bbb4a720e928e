/**
 What a server makes of the packets that the client sends: a reader of MQTT 3.1.1 control packets, and the
 proof that it finds in each packet what the client was asked to send.
 */
module MqttServer {
  import opened Common
  import opened Arith
  import opened MqttFormat
  import opened MqttClient

  datatype Request =
    | ConnectRequest(args: ConnectArgs, keepAlive: uint16)
    | PublishRequest(retained: bool, topic: seq<byte>, payload: seq<byte>)
    | PubAck(id: nat)
    | SubscribeRequest(id: nat, topic: seq<byte>, qos: byte)
    | UnsubscribeRequest(id: nat, topic: seq<byte>)
    | PingRequest
    | PingResponse
    | DisconnectRequest

  /** The body of a packet whose remaining length is that of the rest. */
  function BodyOf(p: seq<byte>): Option<seq<byte>> {
    if p == [] then None
    else
      var l := ReadLength(p[1..], 0);
      if l.Known? && |p| == 1 + l.count + l.value then Some(p[1 + l.count..]) else None
  }

  /** The packet, by the type and the flags in its first byte (table 2.1 and table 2.2). */
  function ReadRequest(p: seq<byte>): Option<Request> {
    var body := BodyOf(p);
    if body.None? then None
    else
      var b, kind, flags := body.value, p[0] / 16, p[0] % 16;
      if kind == 1 && flags == 0 then
        var c := ReadConnectBody(b);
        if c.None? then None else Some(ConnectRequest(c.value.0, c.value.1))
      else if kind == 3 && flags <= 1 then
        var t := TakeField(b);
        if t.None? then None else Some(PublishRequest(flags == 1, t.value.0, t.value.1))
      else if kind == 4 && flags == 0 then
        if |b| == 2 then Some(PubAck(Word(b[0], b[1]))) else None
      else if kind == 8 && flags == 2 then
        var t := if |b| < 2 then None else TakeField(b[2..]);
        if t.None? || |t.value.1| != 1 then None else Some(SubscribeRequest(Word(b[0], b[1]), t.value.0, t.value.1[0]))
      else if kind == 10 && flags == 2 then
        var t := if |b| < 2 then None else TakeField(b[2..]);
        if t.None? || t.value.1 != [] then None else Some(UnsubscribeRequest(Word(b[0], b[1]), t.value.0))
      else if b != [] || flags != 0 then None
      else if kind == 12 then Some(PingRequest)
      else if kind == 13 then Some(PingResponse)
      else if kind == 14 then Some(DisconnectRequest)
      else None
  }

  lemma BodyRoundTrip(header: byte, body: seq<byte>)
    requires |body| < 0x1000_0000
    ensures BodyOf(Packet(header, body)) == Some(body) && Packet(header, body)[0] == header
  {
    hide RemainingLength, ReadLength, Pow;
    FourBytes();
    LengthSize(|body|, 4);
    LengthRoundTrip(|body|, 0, body);
    PacketSlices([header], RemainingLength(|body|), body);
  }

  /** The CONNECT packet, read from its bytes, says exactly what `connect` was asked to send. */
  lemma ConnectRoundTrip(a: ConnectArgs, keepAlive: uint16)
    requires (a.will.Some? ==> a.will.value.qos < 4) && SmallStrings(Strings(a))
    ensures ReadRequest(ConnectPacket(a, keepAlive)) == Some(ConnectRequest(Sent(a), keepAlive))
  {
    hide Strings, Fields, ConnectHead, ReadConnectBody, Packet, BodyOf, Sent;
    ConnectBodySize(a, keepAlive);
    ConnectBodyRoundTrip(a, keepAlive);
    BodyRoundTrip(CONNECT, ConnectHead(a, keepAlive) + Fields(Strings(a)));
  }

  /** The packets of `publish` and `publish_P`. */
  lemma PublishRoundTrip(retained: bool, topic: seq<byte>, payload: seq<byte>)
    requires |topic| < 0x1_0000 && 2 + |topic| + |payload| < 0x1000_0000
    ensures ReadRequest(PublishPacket(retained, topic, payload)) == Some(PublishRequest(retained, topic, payload))
  {
    hide Field, Packet, BodyOf, TakeField;
    TakeFieldRoundTrip(topic, payload);
    BodyRoundTrip(if retained then PUBLISH + 1 else PUBLISH, Field(topic) + payload);
  }

  /** The packets of `subscribe` and `unsubscribe`. */
  lemma SubscribeRoundTrip(id: uint16, topic: seq<byte>, qos: byte)
    requires |topic| < 0x1_0000
    ensures ReadRequest(Packet(SUBSCRIBE + QOS1, SubscribeBody(id, topic, qos))) == Some(SubscribeRequest(id, topic, qos))
    ensures ReadRequest(Packet(UNSUBSCRIBE + QOS1, WordBytes(id) + Field(topic))) == Some(UnsubscribeRequest(id, topic))
  {
    hide Field, Packet, BodyOf, TakeField, WordBytes, Word;
    WordRoundTrip(id);
    var w, f := WordBytes(id), Field(topic);
    TakeFieldRoundTrip(topic, [qos]);
    TakeFieldRoundTrip(topic, []);
    assert f + [] == f;
    BodyRoundTrip(SUBSCRIBE + QOS1, w + f + [qos]);
    BodyRoundTrip(UNSUBSCRIBE + QOS1, w + f);
    assert (w + f + [qos])[2..] == f + [qos] && (w + f)[2..] == f;
  }

  /** What `loop` and `disconnect` send. */
  lemma ShortPackets(id: uint16)
    ensures ReadRequest([PUBACK, 2] + WordBytes(id)) == Some(PubAck(id))
    ensures ReadRequest([PINGREQ, 0]) == Some(PingRequest) && ReadRequest([PINGRESP, 0]) == Some(PingResponse)
    ensures ReadRequest([DISCONNECT, 0]) == Some(DisconnectRequest)
  {
    hide Packet, BodyOf, WordBytes, Word;
    WordRoundTrip(id);
    ShortPacket(PUBACK, WordBytes(id));
    ShortPacket(PINGREQ, []);
    ShortPacket(PINGRESP, []);
    ShortPacket(DISCONNECT, []);
    assert [PINGREQ, 0] + [] == [PINGREQ, 0] && [PINGRESP, 0] + [] == [PINGRESP, 0] && [DISCONNECT, 0] + [] == [DISCONNECT, 0];
  }

  lemma ShortPacket(header: byte, body: seq<byte>)
    requires |body| < 128
    ensures var p := [header, |body|] + body;
      p[0] == header && BodyOf(p) == Some(body)
  {
    hide BodyOf;
    BodyRoundTrip(header, body);
    assert RemainingLength(|body|) == [|body|];
    assert Packet(header, body) == [header, |body|] + body;
  }

  /** The example of section 2.2.3: 321 is sent as 193 and 2. */
  lemma PublishedLength()
    ensures RemainingLength(321) == [193, 2]
  {
    assert RemainingLength(2) == [2];
  }
}
