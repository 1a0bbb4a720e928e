/**
 MQTT packets as sequences of bytes: how they are laid out, what `readPacket` makes of a stream of them,
 and what a PUBLISH packet delivers (MQTT 3.1.1, sections 2.2.3 and 3.3).
 */
module MqttFormat {
  import opened Common
  import opened Arith

  const CONNECT: byte := 0x10
  const PUBLISH: byte := 0x30
  const PUBACK: byte := 0x40
  const SUBSCRIBE: byte := 0x80
  const UNSUBSCRIBE: byte := 0xa0
  const PINGREQ: byte := 0xc0
  const PINGRESP: byte := 0xd0
  const DISCONNECT: byte := 0xe0
  const QOS1: byte := 0x02
  const MAX_HEADER_SIZE: nat := 5

  /** The type of a packet, from its first byte. */
  function TypeOf(header: byte): byte {
    header / 16 * 16
  }

  /** The remaining length, seven bits a byte, lowest first. */
  function RemainingLength(n: nat): (s: seq<byte>)
    ensures |s| >= 1
  {
    if n < 128 then [n] else [n % 128 + 128] + RemainingLength(n / 128)
  }

  function Packet(header: byte, body: seq<byte>): seq<byte> {
    [header] + RemainingLength(|body|) + body
  }

  function WordBytes(n: nat): (s: seq<byte>)
    requires n < 0x1_0000
    ensures |s| == 2
  {
    [n / 256, n % 256]
  }

  lemma WordRoundTrip(n: nat)
    requires n < 0x1_0000
    ensures Word(WordBytes(n)[0], WordBytes(n)[1]) == n
  {}

  /** A string with its length in front. */
  function Field(s: seq<byte>): (f: seq<byte>)
    requires |s| < 0x1_0000
    ensures |f| == 2 + |s|
  {
    WordBytes(|s|) + s
  }

  function PublishPacket(retained: bool, topic: seq<byte>, payload: seq<byte>): seq<byte>
    requires |topic| < 0x1_0000
  {
    Packet(if retained then PUBLISH + 1 else PUBLISH, Field(topic) + payload)
  }

  // ----- Reading

  datatype Length = Known(value: nat, count: nat) | RanOut | Endless

  /** The remaining length at the front of s, when k of its bytes have been taken; there may be four. */
  function ReadLength(s: seq<byte>, k: nat): Length
    decreases |s|
  {
    if k >= 4 then Endless
    else if s == [] then RanOut
    else if s[0] < 128 then Known(s[0], 1)
    else
      match ReadLength(s[1..], k + 1)
      case Known(v, c) => Known(s[0] - 128 + 128 * v, c + 1)
      case other => other
  }

  /** A length that fits the four bytes is read back, and not a byte more is taken. */
  lemma {:induction false} LengthRoundTrip(n: nat, k: nat, rest: seq<byte>)
    requires k + |RemainingLength(n)| <= 4
    ensures ReadLength(RemainingLength(n) + rest, k) == Known(n, |RemainingLength(n)|)
  {
    var s := RemainingLength(n) + rest;
    if n >= 128 {
      assert s[1..] == RemainingLength(n / 128) + rest;
      LengthRoundTrip(n / 128, k + 1, rest);
    }
  }

  /** The lengths that take at most k bytes are those below 128 to the k. */
  lemma {:induction false} LengthSize(n: nat, k: nat)
    requires k >= 1
    ensures |RemainingLength(n)| <= k <==> n < Pow(128, k)
  {
    if k == 1 {
      assert Pow(128, 0) == 1;
      assert Pow(128, 1) == 128;
    } else if n >= 128 {
      LengthSize(n / 128, k - 1);
      assert Pow(128, k) == 128 * Pow(128, k - 1);
    } else {
      PowAtLeast(k);
    }
  }

  lemma {:induction false} PowAtLeast(k: nat)
    requires k >= 1
    ensures Pow(128, k) >= 128
  {
    assert Pow(128, 0) == 1;
    if k > 1 { PowAtLeast(k - 1); }
  }

  lemma FourBytes()
    ensures Pow(128, 4) == 0x1000_0000 && Pow(128, 3) == 0x20_0000
  {
    assert Pow(128, 0) == 1;
    assert Pow(128, 1) == 128;
    assert Pow(128, 2) == 128 * 128;
  }

  /** Different lengths are written differently, and neither begins the other. */
  lemma LengthIsInjective(m: nat, n: nat)
    requires RemainingLength(m) == RemainingLength(n)
    ensures m == n
    decreases m
  {
    if m >= 128 && n >= 128 {
      assert RemainingLength(m)[1..] == RemainingLength(m / 128);
      assert RemainingLength(n)[1..] == RemainingLength(n / 128);
      LengthIsInjective(m / 128, n / 128);
    }
  }

  /**
   What `readPacket` makes of the bytes that arrive before it would time out: nothing usable, a length
   that ends the connection, a packet too big for the buffer, or a packet.
   */
  datatype Reading = TimedOut | Killed | Skipped(total: nat) | Got(total: nat, llen: nat)

  /** The two bytes of a topic length are read even when the length does not cover them. */
  function Total(header: byte, n: nat, llen: nat): nat {
    1 + llen + if TypeOf(header) == PUBLISH && n < 2 then 2 else n
  }

  function ReadPacket(s: seq<byte>, bufferSize: nat): Reading {
    if s == [] then TimedOut
    else
      match ReadLength(s[1..], 0)
      case RanOut => TimedOut
      case Endless => Killed
      case Known(n, llen) =>
        var total := Total(s[0], n, llen);
        if |s| < total then TimedOut
        else if total > bufferSize then Skipped(total)
        else Got(total, llen)
  }

  lemma {:induction false} LengthWithin(s: seq<byte>, k: nat)
    ensures var l := ReadLength(s, k); l.Known? ==> 1 <= l.count <= |s| && k + l.count <= 4 && l.value < Pow(128, l.count)
  {
    assert Pow(128, 0) == 1;
    assert Pow(128, 1) == 128;
    if k < 4 && s != [] && s[0] >= 128 {
      LengthWithin(s[1..], k + 1);
    }
  }

  /** Whole packets are read one at a time, in step; those too big for the buffer are passed over. */
  lemma PacketIsRead(header: byte, body: seq<byte>, rest: seq<byte>, bufferSize: nat)
    requires |body| < Pow(128, 4) && (TypeOf(header) == PUBLISH ==> |body| >= 2)
    ensures var p := Packet(header, body);
      && ReadPacket(p + rest, bufferSize) ==
           (if |p| > bufferSize then Skipped(|p|) else Got(|p|, |RemainingLength(|body|)|))
      && (p + rest)[|p|..] == rest
  {
    hide RemainingLength, ReadLength, Pow;
    var l := RemainingLength(|body|);
    LengthSize(|body|, 4);
    LengthRoundTrip(|body|, 0, body + rest);
    var s := Packet(header, body) + rest;
    assert s[1..] == l + (body + rest);
  }

  /** A PUBLISH packet too short for the length of a topic takes bytes of what follows it. */
  lemma ShortPublishOverreads(header: byte, body: seq<byte>, rest: seq<byte>, bufferSize: nat)
    requires header / 16 == 3 && |body| < 2 && bufferSize >= 4
    ensures ReadPacket([header, |body|] + body + rest, bufferSize)
      == if |body| + |rest| < 2 then TimedOut else Got(4, 1)
  {
    HeaderBits(header);
    var s := [header, |body|] + body + rest;
    assert s[1..][0] == |body|;
  }

  // ----- What a PUBLISH packet delivers

  /** One call of the callback. */
  datatype Call = Call(topic: seq<byte>, payload: seq<byte>)

  function TopicLength(p: seq<byte>, llen: nat): nat
    requires llen + 3 <= |p|
  {
    Word(p[llen + 1], p[llen + 2])
  }

  predicate HasId(header: byte) {
    header / 2 % 4 == 1
  }

  /** Where the payload begins. */
  function PayloadAt(p: seq<byte>, llen: nat): nat
    requires llen + 3 <= |p|
  {
    llen + 3 + TopicLength(p, llen) + if HasId(p[0]) then 2 else 0
  }

  /** The topic, and the identifier where there is one, lie within the packet. */
  predicate WellFormedPublish(p: seq<byte>, llen: nat) {
    llen + 3 <= |p| && PayloadAt(p, llen) <= |p|
  }

  /** The callback sees the topic as a C string. */
  function Delivered(p: seq<byte>, llen: nat): Call
    requires WellFormedPublish(p, llen)
  {
    Call(CString(p[llen + 3..llen + 3 + TopicLength(p, llen)]), p[PayloadAt(p, llen)..])
  }

  /** The answer to a message with an identifier. */
  function Ack(p: seq<byte>, llen: nat): seq<byte>
    requires WellFormedPublish(p, llen) && HasId(p[0])
  {
    var at := PayloadAt(p, llen);
    [PUBACK, 2, p[at - 2], p[at - 1]]
  }

  /** A packet that was published with quality of service 0 delivers its topic and its payload. */
  lemma PublishDelivers(retained: bool, topic: seq<byte>, payload: seq<byte>)
    requires |topic| < 0x1_0000 && 0 !in topic
    ensures var p := PublishPacket(retained, topic, payload);
      var llen := |RemainingLength(2 + |topic| + |payload|)|;
      && TypeOf(p[0]) == PUBLISH && !HasId(p[0])
      && WellFormedPublish(p, llen)
      && Delivered(p, llen) == Call(topic, payload)
  {
    hide RemainingLength, WordBytes, Word, Packet, Field, CString;
    PublishedParts(if retained then PUBLISH + 1 else PUBLISH, topic, payload, |RemainingLength(2 + |topic| + |payload|)|);
    CStringWhole(topic);
  }

  /** The quality of service: two bits of the header. */
  function Quality(header: byte): (q: nat) {
    header / 2 % 4
  }

  /** What follows the topic of a message: the identifier unless the quality is 0, and the payload. */
  function BehindTopic(header: byte, id: nat, payload: seq<byte>): seq<byte>
    requires id < 0x1_0000
  {
    (if Quality(header) == 0 then [] else WordBytes(id)) + payload
  }

  /** What a server sends for a message (MQTT 3.1.1, section 3.3). */
  function Message(header: byte, topic: seq<byte>, id: nat, payload: seq<byte>): seq<byte>
    requires |topic| < 0x1_0000 && id < 0x1_0000
  {
    Packet(header, Field(topic) + BehindTopic(header, id, payload))
  }

  /**
   A message of quality 0 or 1 delivers its topic and its payload, and one of quality 1 is answered with
   its identifier. One of quality 2, which the client never asks for, delivers its identifier in front of
   the payload and is not answered.
   */
  lemma MessageDelivers(header: byte, topic: seq<byte>, id: nat, payload: seq<byte>, llen: nat)
    requires header / 16 == 3 && |topic| < 0x1_0000 && id < 0x1_0000 && 0 !in topic
    requires llen == |RemainingLength(2 + |topic| + |BehindTopic(header, id, payload)|)|
    ensures var p, quality := Message(header, topic, id, payload), Quality(header);
      && p != [] && p[0] == header && TypeOf(header) == PUBLISH && WellFormedPublish(p, llen)
      && Delivered(p, llen) == Call(topic, if quality < 2 then payload else WordBytes(id) + payload)
      && (HasId(header) <==> quality == 1)
      && (quality == 1 ==> Ack(p, llen) == [0x40, 2] + WordBytes(id))
  {
    hide RemainingLength, WordBytes, Word, Packet, Field, Quality, HasId, CString, TypeOf;
    var p, behind := Message(header, topic, id, payload), BehindTopic(header, id, payload);
    PublishedParts(header, topic, behind, llen);
    CStringWhole(topic);
    HeaderBits(header);
    if Quality(header) == 1 { BehindId(p, llen + 3 + |topic|, WordBytes(id), payload); }
  }

  /** The parts of a PUBLISH packet. */
  lemma PublishedParts(header: byte, topic: seq<byte>, behind: seq<byte>, llen: nat)
    requires |topic| < 0x1_0000 && llen == |RemainingLength(2 + |topic| + |behind|)|
    ensures var p := Packet(header, Field(topic) + behind);
      && |p| == llen + 3 + |topic| + |behind| && p[0] == header && TopicLength(p, llen) == |topic|
      && p[llen + 3..llen + 3 + |topic|] == topic && p[llen + 3 + |topic|..] == behind
  {
    hide RemainingLength, WordBytes, Word;
    var p := Packet(header, Field(topic) + behind);
    var l, w := RemainingLength(2 + |topic| + |behind|), WordBytes(|topic|);
    WordRoundTrip(|topic|);
    assert |Field(topic) + behind| == 2 + |topic| + |behind|;
    assert p == [header] + l + w + topic + behind;
    PublishSlices([header], l, w, topic, behind, p);
  }

  lemma HeaderBits(header: byte)
    ensures header / 16 == 3 ==> TypeOf(header) == PUBLISH
    ensures HasId(header) <==> Quality(header) == 1
  {}

  lemma BehindId(p: seq<byte>, at: nat, w: seq<byte>, payload: seq<byte>)
    requires at <= |p| && |w| == 2 && p[at..] == w + payload
    ensures at + 2 <= |p| && p[at] == w[0] && p[at + 1] == w[1] && p[at + 2..] == payload
  {
    assert p[at] == p[at..][0] && p[at + 1] == p[at..][1] && p[at + 2..] == p[at..][2..];
  }

  lemma PublishSlices(h: seq<byte>, l: seq<byte>, w: seq<byte>, topic: seq<byte>, payload: seq<byte>, p: seq<byte>)
    requires |h| == 1 && |w| == 2 && p == h + l + w + topic + payload
    ensures |p| == |l| + 3 + |topic| + |payload|
    ensures p[|l| + 1] == w[0] && p[|l| + 2] == w[1]
    ensures p[|l| + 3..|l| + 3 + |topic|] == topic
    ensures p[|l| + 3 + |topic|..] == payload
  {}

  /**
   A message that passes the size check of `publish` is read whole by a client with the same buffer size,
   whatever follows it, and delivers its topic and payload.
   */
  lemma PublishedIsDelivered(retained: bool, topic: seq<byte>, payload: seq<byte>, rest: seq<byte>, bufferSize: nat)
    requires MAX_HEADER_SIZE + 2 + |topic| + |payload| <= bufferSize < 0x1_0000 && 0 !in topic
    ensures var p := PublishPacket(retained, topic, payload);
      && var r := ReadPacket(p + rest, bufferSize);
      && r.Got? && r.total == |p| && (p + rest)[..|p|] == p && (p + rest)[|p|..] == rest
      && WellFormedPublish(p, r.llen) && Delivered(p, r.llen) == Call(topic, payload)
  {
    var body := Field(topic) + payload;
    FourBytes();
    LengthSize(|body|, 3);
    PublishDelivers(retained, topic, payload);
    PacketIsRead(if retained then PUBLISH + 1 else PUBLISH, body, rest, bufferSize);
  }
}
