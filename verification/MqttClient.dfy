/**
 The MQTT client: packets are put together and taken apart in one buffer, with room for the longest header
 in front. The connection takes everything that is sent; what has arrived and has not been read is `unread`,
 and a read that finds nothing there times out.
 */
module MqttClient {
  import opened Common
  import opened Arith
  import opened MqttFormat
  import Session = MqttSession

  type Time = uint32

  datatype Will = Will(topic: seq<byte>, message: seq<byte>, qos: nat, retain: bool)

  /** The arguments of `connect`; strings are given without their NUL. */
  datatype ConnectArgs = ConnectArgs(
    id: seq<byte>, user: Option<seq<byte>>, pass: Option<seq<byte>>, will: Option<Will>, cleanSession: bool)

  // ----- The CONNECT packet

  const ProtocolName: seq<byte> := [0, 4, 77, 81, 84, 84, 4]

  function ConnectFlags(a: ConnectArgs): byte
    requires a.will.Some? ==> a.will.value.qos < 4
  {
    (if a.will.Some? then 0x04 + a.will.value.qos * 8 + (if a.will.value.retain then 0x20 else 0) else 0)
    + (if a.cleanSession then 0x02 else 0)
    + (if a.user.Some? then 0x80 + (if a.pass.Some? then 0x40 else 0) else 0)
  }

  function WillStrings(a: ConnectArgs): seq<seq<byte>> {
    if a.will.Some? then [a.will.value.topic, a.will.value.message] else []
  }

  /** A password goes only with a user. */
  function UserStrings(a: ConnectArgs): seq<seq<byte>> {
    if a.user.None? then [] else [a.user.value] + if a.pass.Some? then [a.pass.value] else []
  }

  /** The strings that follow the flags, in order. */
  function Strings(a: ConnectArgs): seq<seq<byte>> {
    [a.id] + WillStrings(a) + UserStrings(a)
  }

  function Fields(ss: seq<seq<byte>>): seq<byte>
    requires forall i :: 0 <= i < |ss| ==> |ss[i]| < 0x1_0000
  {
    if ss == [] then [] else Fields(ss[..|ss| - 1]) + Field(ss[|ss| - 1])
  }

  function FieldsSize(ss: seq<seq<byte>>): nat {
    if ss == [] then 0 else FieldsSize(ss[..|ss| - 1]) + 2 + |ss[|ss| - 1]|
  }

  /** The room in front of the strings: the header gap, protocol, flags and keep-alive. */
  const STRINGS_AT: nat := 15

  predicate SmallStrings(ss: seq<seq<byte>>) {
    forall i :: 0 <= i < |ss| ==> |ss[i]| < 0x1_0000
  }

  predicate ConnectFits(a: ConnectArgs, bufferSize: nat) {
    SmallStrings(Strings(a)) && STRINGS_AT + FieldsSize(Strings(a)) <= bufferSize
  }

  /** What precedes the strings. */
  function ConnectHead(a: ConnectArgs, keepAlive: uint16): (h: seq<byte>)
    requires a.will.Some? ==> a.will.value.qos < 4
    ensures |h| == 10
  {
    ProtocolName + [ConnectFlags(a)] + WordBytes(keepAlive)
  }

  function ConnectPacket(a: ConnectArgs, keepAlive: uint16): seq<byte>
    requires (a.will.Some? ==> a.will.value.qos < 4) && SmallStrings(Strings(a))
  {
    Packet(CONNECT, ConnectHead(a, keepAlive) + Fields(Strings(a)))
  }

  lemma FieldsSnoc(ss: seq<seq<byte>>, s: seq<byte>)
    requires SmallStrings(ss) && |s| < 0x1_0000
    ensures SmallStrings(ss + [s]) && Fields(ss + [s]) == Fields(ss) + Field(s)
    ensures FieldsSize(ss + [s]) == FieldsSize(ss) + 2 + |s|
    ensures |Fields(ss)| == FieldsSize(ss) ==> |Fields(ss + [s])| == FieldsSize(ss + [s])
  {
    assert (ss + [s])[..|ss|] == ss;
  }

  lemma {:induction false} SizeAppend(x: seq<seq<byte>>, y: seq<seq<byte>>)
    ensures FieldsSize(x + y) >= FieldsSize(x)
  {
    if y == [] {
      assert x + y == x;
    } else {
      SizeAppend(x, y[..|y| - 1]);
      assert (x + y)[..|x + y| - 1] == x + y[..|y| - 1];
    }
  }

  /** The strings as they are added one by one. */
  lemma StringsBegin(a: ConnectArgs)
    ensures [] + [a.id] == [a.id] <= Strings(a)
    ensures a.will.None? ==> [a.id] + WillStrings(a) == [a.id]
    ensures a.will.Some? ==>
      && [a.id] + [a.will.value.topic] <= Strings(a)
      && [a.id] + [a.will.value.topic] + [a.will.value.message] == [a.id] + WillStrings(a) <= Strings(a)
    ensures a.user.None? ==> Strings(a) == [a.id] + WillStrings(a)
    ensures a.user.Some? ==>
      && [a.id] + WillStrings(a) + [a.user.value] <= Strings(a)
      && (a.pass.None? ==> [a.id] + WillStrings(a) + [a.user.value] == Strings(a))
      && (a.pass.Some? ==> [a.id] + WillStrings(a) + [a.user.value] + [a.pass.value] == Strings(a))
  {}

  lemma {:induction false} PrefixSize(x: seq<seq<byte>>, y: seq<seq<byte>>)
    requires x <= y
    ensures FieldsSize(x) <= FieldsSize(y)
  {
    assert y == x + y[|x|..];
    SizeAppend(x, y[|x|..]);
  }

  /** When the next string has no room, the packet has none. */
  lemma TooMuch(a: ConnectArgs, done: seq<seq<byte>>, s: seq<byte>, head: seq<byte>, text: seq<byte>, bufferSize: nat)
    requires Written(done, head, text) && |head| == 10 && done + [s] <= Strings(a)
    ensures 5 + |text| + 2 + |s| > bufferSize ==> !ConnectFits(a, bufferSize)
  {
    assert (done + [s])[..|done|] == done;
    PrefixSize(done + [s], Strings(a));
  }

  lemma AllWritten(a: ConnectArgs, done: seq<seq<byte>>, head: seq<byte>, text: seq<byte>, bufferSize: nat)
    requires Written(done, head, text) && |head| == 10 && done == Strings(a) && 5 + |text| <= bufferSize
    ensures ConnectFits(a, bufferSize) && SmallStrings(Strings(a)) && text == head + Fields(Strings(a))
  {}

  lemma WrittenNext(done: seq<seq<byte>>, head: seq<byte>, text: seq<byte>, s: seq<byte>)
    requires Written(done, head, text) && |s| < 0x1_0000
    ensures Written(done + [s], head, text + Field(s))
  {
    FieldsSnoc(done, s);
    Assoc(head, Fields(done), Field(s));
  }

  lemma NothingWritten(head: seq<byte>)
    ensures Written([], head, head)
  {}

  /** Some of the strings, each written because there was room for it. */
  ghost predicate Written(done: seq<seq<byte>>, head: seq<byte>, text: seq<byte>) {
    SmallStrings(done) && text == head + Fields(done) && |Fields(done)| == FieldsSize(done)
  }

  // ----- What `loop` and `connect` make of the next packet

  function GotOf(s: seq<byte>, bufferSize: nat, hasCallback: bool): Session.Got {
    if s == [] then Session.Nothing
    else
      match ReadPacket(s, bufferSize)
      case TimedOut => Session.Ignored
      case Skipped(_) => Session.Ignored
      case Killed => Session.Killed
      case Got(_, _) =>
        if TypeOf(s[0]) == PUBLISH && hasCallback && HasId(s[0]) then Session.Acknowledged
        else if TypeOf(s[0]) == PINGRESP then Session.Pong
        else Session.Other
  }

  function ReplyOf(s: seq<byte>, bufferSize: nat): Session.Reply {
    if s == [] then Session.NoReply
    else
      match ReadPacket(s, bufferSize)
      case TimedOut => Session.Reply(0, 0)
      case Skipped(_) => Session.Reply(0, 0)
      case Killed => Session.KilledReply
      case Got(total, _) => Session.Reply(total, if total >= 4 && |s| >= 4 then s[3] else 0)
  }

  /** The packet at the front of s, when it is one that fits and was published. */
  predicate IsPublish(s: seq<byte>, bufferSize: nat) {
    ReadPacket(s, bufferSize).Got? && TypeOf(s[0]) == PUBLISH
  }

  /** The published packet at the front of s is well formed. */
  predicate WellFormedFront(s: seq<byte>, bufferSize: nat) {
    match ReadPacket(s, bufferSize)
    case Got(total, llen) => total <= |s| && WellFormedPublish(s[..total], llen)
    case _ => true
  }

  /** What `loop` sends in answer to the packet at the front of s. */
  function Answer(s: seq<byte>, bufferSize: nat, hasCallback: bool): seq<byte> {
    match ReadPacket(s, bufferSize)
    case Got(total, llen) =>
      if total > |s| then []
      else if TypeOf(s[0]) == PUBLISH then
        if hasCallback && WellFormedPublish(s[..total], llen) && HasId(s[..total][0]) then Ack(s[..total], llen) else []
      else if TypeOf(s[0]) == PINGREQ then [PINGRESP, 0]
      else []
    case _ => []
  }

  /** The calls of the callback for the packet at the front of s. */
  function Calls(s: seq<byte>, bufferSize: nat, hasCallback: bool): seq<Call> {
    match ReadPacket(s, bufferSize)
    case Got(total, llen) =>
      if total <= |s| && TypeOf(s[0]) == PUBLISH && hasCallback && WellFormedPublish(s[..total], llen)
      then [Delivered(s[..total], llen)] else []
    case _ => []
  }

  /** What `beginPublish` sends. */
  function BeginPacket(retained: bool, topic: seq<byte>, plength: uint32): seq<byte>
    requires |topic| < 0x1_0000
  {
    [if retained then PUBLISH + 1 else PUBLISH] + RemainingLength((plength + 2 + |topic|) % 0x1_0000) + Field(topic)
  }

  /**
   What is begun and then written in any number of pieces is the packet `publish` would send exactly when
   the remaining length fits 16 bits.
   */
  lemma BegunIsPublished(retained: bool, topic: seq<byte>, payload: seq<byte>)
    requires |topic| < 0x1_0000 && |payload| < 0x1_0000_0000
    ensures BeginPacket(retained, topic, |payload|) + payload == PublishPacket(retained, topic, payload)
      <==> 2 + |topic| + |payload| < 0x1_0000
  {
    var h := [if retained then PUBLISH + 1 else PUBLISH];
    var n := 2 + |topic| + |payload|;
    var m := n % 0x1_0000;
    var short, long, body := RemainingLength(m), RemainingLength(n), Field(topic) + payload;
    assert BeginPacket(retained, topic, |payload|) + payload == h + short + body by {
      Assoc(h + short, Field(topic), payload);
    }
    assert PublishPacket(retained, topic, payload) == h + long + body;
    if n < 0x1_0000 {
      DivModUnique(n, 0, n, 0x1_0000);
    } else {
      DivFacts(n, 0x1_0000);
      SameMiddle(h, short, long, body, m, n);
    }
  }

  lemma SameMiddle(h: seq<byte>, x: seq<byte>, y: seq<byte>, t: seq<byte>, m: nat, n: nat)
    requires x == RemainingLength(m) && y == RemainingLength(n) && m != n && |h| == 1
    ensures h + x + t != h + y + t
  {
    hide RemainingLength;
    if |x| == |y| {
      DifferentLengths(m, n);
      var i :| 0 <= i < |x| && x[i] != y[i];
      assert (h + x + t)[1 + i] != (h + y + t)[1 + i];
    } else {
      assert |h + x + t| != |h + y + t|;
    }
  }

  lemma DifferentLengths(m: nat, n: nat)
    requires m != n && |RemainingLength(m)| == |RemainingLength(n)|
    ensures exists i :: 0 <= i < |RemainingLength(m)| && RemainingLength(m)[i] != RemainingLength(n)[i]
  {
    if forall i :: 0 <= i < |RemainingLength(m)| ==> RemainingLength(m)[i] == RemainingLength(n)[i] {
      assert RemainingLength(m) == RemainingLength(n);
      LengthIsInjective(m, n);
    }
  }

  lemma CStringStops(t: seq<byte>, rest: seq<byte>)
    ensures CString(t + [0] + rest) == CString(t)
  {
    var s := t + [0] + rest;
    if t != [] {
      CStringStops(t[1..], rest);
      assert s[1..] == t[1..] + [0] + rest;
    }
  }

  /** The loop that writes a remaining length, from `pos` on. */
  method EncodeLength(n: nat, buf: array<byte>, pos: nat) returns (llen: nat)
    requires pos + |RemainingLength(n)| <= buf.Length
    modifies buf
    ensures llen == |RemainingLength(n)|
    ensures buf[..pos + llen] == old(buf[..pos]) + RemainingLength(n)
    ensures buf[pos + llen..] == old(buf[pos + llen..])
  {
    hide RemainingLength;
    ghost var all, orig := RemainingLength(n), buf[..];
    var len := n;
    llen := 0;
    while true
      invariant llen + |RemainingLength(len)| == |all|
      invariant buf[..pos + llen] + RemainingLength(len) == orig[..pos] + all
      invariant buf[pos + llen..] == orig[pos + llen..]
      decreases len
    {
      LengthTurn(len);
      ghost var before := buf[..pos + llen];
      var digit: byte := len % 128;
      len := len / 128;
      if len > 0 { digit := digit + 128; }
      DigitStored(buf[..], orig, pos + llen, digit);
      buf[pos + llen] := digit;
      llen := llen + 1;
      if len == 0 { break; }
      Assoc(before, [digit], RemainingLength(len));
    }
  }

  lemma DigitStored(b: seq<byte>, orig: seq<byte>, at: nat, digit: byte)
    requires at < |b| == |orig| && b[at..] == orig[at..]
    ensures b[at := digit][..at + 1] == b[..at] + [digit]
    ensures b[at := digit][at + 1..] == orig[at + 1..]
  {
    assert b[at := digit][at + 1..] == b[at..][1..];
    assert orig[at + 1..] == orig[at..][1..];
  }

  // ----- The client

  class PubSubClient {
    const buffer: array<byte>
    var keepAlive: uint16
    var state: int
    var pingOutstanding: bool
    var nextMsgId: uint16
    var lastIn: Time
    var lastOut: Time
    var up: bool
    var unread: seq<byte>
    var sent: seq<byte>
    var hasCallback: bool
    var calls: seq<Call>

    ghost predicate Valid()
      reads this
    {
      STRINGS_AT <= buffer.Length < 0x1_0000
    }

    ghost function Value(): Session.Session
      reads this
    {
      Session.Session(state, up, pingOutstanding, nextMsgId, lastIn, lastOut)
    }

    constructor (bufferSize: uint16, hasCallback: bool)
      requires bufferSize >= STRINGS_AT
      ensures Valid() && buffer.Length == bufferSize && state == Session.DISCONNECTED && keepAlive == 15
      ensures !up && unread == [] && sent == [] && calls == [] && this.hasCallback == hasCallback && fresh(buffer)
    {
      buffer := new byte[bufferSize];
      state, keepAlive := Session.DISCONNECTED, 15;
      up, unread, sent, calls := false, [], [], [];
      this.hasCallback := hasCallback;
    }

    method Stop()
      modifies `up, `unread
      ensures !up && unread == []
    {
      up, unread := false, [];
    }

    /** `connected`, which also notices that the connection is lost. */
    method Connected() returns (rc: bool)
      modifies `state, `up, `unread
      ensures Value() == Session.Checked(old(Value())) && rc == Session.IsConnected(Value())
      ensures up ==> unread == old(unread)
    {
      rc := up;
      if !rc {
        if state == Session.CONNECTED {
          state := Session.CONNECTION_LOST;
          Stop();
        }
      } else {
        return state == Session.CONNECTED;
      }
    }

    // ----- Writing

    method WriteString(s: seq<byte>, pos0: nat) returns (pos: nat)
      requires Valid() && pos0 + 2 + |s| <= buffer.Length
      modifies buffer
      ensures pos == pos0 + 2 + |s|
      ensures buffer[..] == old(buffer[..pos0]) + Field(s) + old(buffer[pos..])
    {
      hide Field, Put;
      ghost var orig := buffer[..];
      var i := 0;
      pos := pos0 + 2;
      NothingPut(orig, pos, s);
      while i < |s|
        invariant i <= |s| && pos == pos0 + 2 + i
        invariant Put(orig, pos0 + 2, s[..i], buffer[..])
      {
        PutNext(orig, pos0 + 2, s, i, buffer[..]);
        buffer[pos] := s[i];
        pos := pos + 1;
        i := i + 1;
      }
      assert s[..i] == s;
      SetWord(orig, pos0, s, buffer[..], i / 256, i % 256);
      buffer[pos - i - 2] := i / 256;
      buffer[pos - i - 1] := i % 256;
    }

    /** The header goes at the end of the gap. */
    method BuildHeader(header: byte, length: uint16) returns (hlen: nat)
      requires Valid()
      modifies buffer
      ensures hlen == 1 + |RemainingLength(length)| <= 4
      ensures buffer[5 - hlen..5] == [header] + RemainingLength(length)
      ensures buffer[5..] == old(buffer[5..])
    {
      hide Pow, RemainingLength;
      ghost var digits := RemainingLength(length);
      var lenBuf := new byte[4];
      FourBytes();
      LengthSize(length, 3);
      FromNothing(lenBuf[..], digits);
      var llen := EncodeLength(length, lenBuf, 0);
      PutHeader(header, lenBuf, llen, digits);
      hlen := llen + 1;
    }

    /** The digits end where the gap ends, and the header is in front of them. */
    method PutHeader(header: byte, lenBuf: array<byte>, llen: nat, ghost digits: seq<byte>)
      requires Valid() && llen <= 4 && llen <= lenBuf.Length && lenBuf != buffer && lenBuf[..llen] == digits
      modifies buffer
      ensures buffer[4 - llen..5] == [header] + digits
      ensures buffer[5..] == old(buffer[5..])
    {
      assert forall j :: 0 <= j < llen ==> lenBuf[j] == digits[j];
      buffer[MAX_HEADER_SIZE - 1 - llen] := header;
      for i := 0 to llen
        invariant forall j :: 0 <= j < i ==> buffer[5 - llen + j] == digits[j]
        invariant buffer[4 - llen] == header
        invariant forall j :: 5 <= j < buffer.Length ==> buffer[j] == old(buffer[j])
        modifies buffer
      {
        buffer[MAX_HEADER_SIZE - llen + i] := lenBuf[i];
      }
    }

    /** `write(header, buffer, length)`: the header is put in front of `length` bytes, and both are sent. */
    method WritePacket(header: byte, length: uint16, now: Time) returns (ok: bool)
      requires Valid() && MAX_HEADER_SIZE + length <= buffer.Length
      modifies `sent, `lastOut, buffer
      ensures ok && lastOut == now && sent == old(sent) + Packet(header, old(buffer[5..5 + length]))
    {
      hide RemainingLength;
      ghost var body := buffer[5..5 + length];
      ghost var tail := buffer[5..];
      var hlen := BuildHeader(header, length);
      assert body == tail[..length];
      CutAtFive(buffer[..], 5 - hlen, 5 + length);
      sent := sent + buffer[MAX_HEADER_SIZE - hlen..5 + length];
      lastOut := now;
      ok := true;
    }

    /** `publish`: nothing is sent when the packet would not fit behind the longest header. */
    method Publish(topic: seq<byte>, payload: seq<byte>, retained: bool, now: Time) returns (ok: bool)
      requires Valid() && |payload| < 0xff00_0000
      modifies `state, `up, `unread, `sent, `lastOut, buffer
      ensures Value() == Session.AfterSend(old(Value()), MAX_HEADER_SIZE + 2 + |topic| + |payload| <= buffer.Length, now)
      ensures ok <==> Session.IsConnected(old(Value())) && MAX_HEADER_SIZE + 2 + |topic| + |payload| <= buffer.Length
      ensures !ok ==> sent == old(sent)
      ensures ok ==> sent == old(sent) + PublishPacket(retained, topic, payload)
      ensures lastOut == if ok then now else old(lastOut)
    {
      var c := Connected();
      if !c { return false; }
      // strnlen stops at the size of the buffer
      var topicLength := if |topic| < buffer.Length then |topic| else buffer.Length;
      if buffer.Length < MAX_HEADER_SIZE + 2 + topicLength + |payload| { return false; }
      var length := WriteString(topic, MAX_HEADER_SIZE);
      for i := 0 to |payload|
        invariant length == MAX_HEADER_SIZE + 2 + |topic| + i
        invariant buffer[5..length] == Field(topic) + payload[..i]
        modifies buffer
      {
        StoreNext(buffer[..], length, payload[i]);
        PrefixNext(payload, i);
        Assoc(Field(topic), payload[..i], [payload[i]]);
        buffer[length] := payload[i];
        length := length + 1;
      }
      assert payload[..|payload|] == payload;
      var header := PUBLISH;
      if retained { header := header + 1; }
      ok := WritePacket(header, length - MAX_HEADER_SIZE, now);
    }

    /** `publish_P`: any payload; the header and the topic must fit the buffer. */
    method PublishP(topic: seq<byte>, payload: seq<byte>, retained: bool, now: Time) returns (ok: bool)
      requires Valid() && |payload| < 0xff00_0000
      requires 3 + |RemainingLength(2 + |topic| + |payload|)| + |topic| <= buffer.Length
      modifies `state, `up, `unread, `sent, `lastOut, buffer
      ensures Value() == Session.AfterSend(old(Value()), true, now)
      ensures ok <==> Session.IsConnected(old(Value()))
      ensures sent == old(sent) + if ok then PublishPacket(retained, topic, payload) else []
      ensures lastOut == if ok then now else old(lastOut)
    {
      hide RemainingLength, Field, PublishPacket;
      ghost var was := sent;
      var c := Connected();
      if !c { return false; }
      var tlen := |topic|;
      var header := PUBLISH;
      if retained { header := header + 1; }
      FirstStored(buffer[..], header);
      buffer[0] := header;
      var llen := EncodeLength(|payload| + 2 + tlen, buffer, 1);
      ghost var front := [header] + RemainingLength(2 + |topic| + |payload|);
      assert buffer[..1 + llen] == front;
      ghost var mid := buffer[..];
      var pos := WriteString(topic, 1 + llen);
      CutBehind(buffer[..], front, Field(topic), mid[pos..]);
      sent := sent + buffer[..pos];
      SendEach(payload);
      lastOut := now;
      Assoc(was, front + Field(topic), payload);
      PublishParts(retained, topic, payload, front);
      ok := true;
    }

    /** The payload, byte by byte. */
    method SendEach(payload: seq<byte>)
      modifies `sent
      ensures sent == old(sent) + payload
    {
      for i := 0 to |payload|
        invariant sent == old(sent) + payload[..i]
      {
        sent := sent + [payload[i]];
        assert payload[..i + 1] == payload[..i] + [payload[i]];
      }
      assert payload[..|payload|] == payload;
    }

    /** `beginPublish`: the header and the topic. The remaining length is passed on as 16 bits. */
    method BeginPublish(topic: seq<byte>, plength: uint32, retained: bool, now: Time) returns (ok: bool)
      requires Valid() && MAX_HEADER_SIZE + 2 + |topic| <= buffer.Length
      modifies `state, `up, `unread, `sent, `lastOut, buffer
      ensures Value() == Session.AfterSend(old(Value()), true, now)
      ensures ok <==> Session.IsConnected(old(Value()))
      ensures sent == old(sent) + if ok then BeginPacket(retained, topic, plength) else []
      ensures lastOut == if ok then now else old(lastOut)
    {
      hide RemainingLength, Field;
      var c := Connected();
      if !c { return false; }
      ghost var was := buffer[..];
      var length := WriteString(topic, MAX_HEADER_SIZE);
      var header := PUBLISH;
      if retained { header := header + 1; }
      Behind(was, Field(topic), buffer[..]);
      var hlen := BuildHeader(header, (plength + (length - MAX_HEADER_SIZE)) % 0x1_0000);
      CutAtFive(buffer[..], 5 - hlen, length);
      sent := sent + buffer[MAX_HEADER_SIZE - hlen..length];
      lastOut := now;
      ok := true;
    }

    /** `write`: bytes of a payload that has been begun. */
    method WriteBytes(data: seq<byte>, now: Time) returns (n: nat)
      modifies `sent, `lastOut
      ensures n == |data| && sent == old(sent) + data && Value() == Session.After(old(Value()), Session.RawWrite(now)).0
    {
      lastOut := now;
      sent := sent + data;
      n := |data|;
    }

    /** `subscribe`; None stands for a null pointer. */
    method Subscribe(topic: Option<seq<byte>>, qos: byte, now: Time) returns (ok: bool)
      requires Valid()
      // the check leaves no room for the last byte of a topic that just passes it
      requires topic.Some? && qos <= 1 ==> 9 + |topic.value| != buffer.Length
      ensures var fits := topic.Some? && qos <= 1 && 9 + |topic.value| <= buffer.Length;
        && Value() == Session.AfterSendWithId(old(Value()), fits, now).0
        && (ok <==> fits && Session.IsConnected(old(Value())))
        && sent == old(sent) + if ok then Packet(SUBSCRIBE + QOS1, SubscribeBody(nextMsgId, topic.value, qos)) else []
      modifies `state, `up, `unread, `sent, `lastOut, `nextMsgId, buffer
    {
      if topic.None? { return false; }
      if qos > 1 { return false; }
      var topicLength := if |topic.value| < buffer.Length then |topic.value| else buffer.Length;
      if buffer.Length < 9 + topicLength { return false; }
      var c := Connected();
      if !c { return false; }
      var length := WriteIdAndTopic(topic.value);
      buffer[length] := qos;
      length := length + 1;
      assert buffer[5..length] == buffer[5..length - 1] + [qos];
      ok := WritePacket(SUBSCRIBE + QOS1, length - MAX_HEADER_SIZE, now);
    }

    /** `unsubscribe`. */
    method Unsubscribe(topic: Option<seq<byte>>, now: Time) returns (ok: bool)
      requires Valid()
      modifies `state, `up, `unread, `sent, `lastOut, `nextMsgId, buffer
      ensures var fits := topic.Some? && 9 + |topic.value| <= buffer.Length;
        && Value() == Session.AfterSendWithId(old(Value()), fits, now).0
        && (ok <==> fits && Session.IsConnected(old(Value())))
        && sent == old(sent) + if ok then Packet(UNSUBSCRIBE + QOS1, WordBytes(nextMsgId) + Field(topic.value)) else []
    {
      if topic.None? { return false; }
      var topicLength := if |topic.value| < buffer.Length then |topic.value| else buffer.Length;
      if buffer.Length < 9 + topicLength { return false; }
      var c := Connected();
      if !c { return false; }
      var length := WriteIdAndTopic(topic.value);
      ok := WritePacket(UNSUBSCRIBE + QOS1, length - MAX_HEADER_SIZE, now);
    }

    /** What `subscribe` and `unsubscribe` have in common: the next identifier and the topic. */
    method WriteIdAndTopic(topic: seq<byte>) returns (length: nat)
      requires Valid() && 9 + |topic| <= buffer.Length
      modifies `nextMsgId, buffer
      ensures nextMsgId == Session.NextId(old(nextMsgId))
      ensures length == 9 + |topic| && buffer[5..length] == WordBytes(nextMsgId) + Field(topic)
    {
      length := MAX_HEADER_SIZE;
      nextMsgId := (nextMsgId + 1) % 0x1_0000;
      if nextMsgId == 0 { nextMsgId := 1; }
      buffer[length] := nextMsgId / 256;
      buffer[length + 1] := nextMsgId % 256;
      length := length + 2;
      ghost var mid := buffer[..];
      assert mid[5..7] == WordBytes(nextMsgId);
      length := WriteString(topic, length);
      assert buffer[5..length] == mid[5..7] + Field(topic);
    }

    method Disconnect(now: Time)
      requires Valid()
      modifies `state, `up, `unread, `sent, `lastIn, `lastOut, buffer
      ensures Value() == Session.AfterDisconnect(old(Value()), now) && sent == old(sent) + [DISCONNECT, 0]
    {
      buffer[0] := DISCONNECT;
      buffer[1] := 0;
      sent := sent + buffer[..2];
      state := Session.DISCONNECTED;
      Stop();
      lastIn, lastOut := now, now;
    }

    // ----- Reading

    /** Reads a byte; times out when none is there. */
    method ReadByte() returns (ok: bool, b: byte)
      modifies `unread
      ensures ok <==> old(unread) != []
      ensures ok ==> b == old(unread)[0] && unread == old(unread)[1..]
      ensures !ok ==> unread == []
    {
      if unread == [] { return false, 0; }
      b := unread[0];
      unread := unread[1..];
      ok := true;
    }

    /** Reads a byte to a place in the buffer, and moves the place. */
    method ReadByteTo(index0: nat) returns (ok: bool, index: nat)
      requires index0 < buffer.Length
      modifies `unread, buffer
      ensures ok <==> old(unread) != []
      ensures index == if ok then index0 + 1 else index0
      ensures ok ==> unread == old(unread)[1..] && buffer[..] == old(buffer[..])[index0 := old(unread)[0]]
      ensures !ok ==> unread == [] && buffer[..] == old(buffer[..])
    {
      var b;
      index := index0;
      ok, b := ReadByte();
      if ok {
        buffer[index] := b;
        index := index + 1;
      }
    }

    /** The first n bytes of s are at the front of the buffer, and have been taken from the stream. */
    ghost predicate Taken(s: seq<byte>, n: nat)
      reads this, buffer
    {
      n <= |s| && n <= buffer.Length && buffer[..n] == s[..n] && unread == s[n..]
    }

    /** The remaining length, from the second byte on; a fifth byte of it ends the connection. */
    method ReadLengthBytes(ghost s: seq<byte>) returns (r: Length, len: nat)
      requires Valid() && s != [] && Taken(s, 1)
      modifies `unread, `state, `up, buffer
      ensures r == ReadLength(s[1..], 0)
      ensures r.Known? ==> len == 1 + r.count <= 5 && Taken(s, len)
      ensures r.Endless? ==> state == Session.DISCONNECTED && !up
      ensures !r.Endless? ==> state == old(state) && up == old(up)
      ensures r.RanOut? ==> unread == []
    {
      hide ReadLength, LengthSoFar;
      var multiplier: nat, length: nat := 1, 0;
      len := 1;
      LengthBegins(s);
      while true
        invariant 1 <= len <= 5 && Taken(s, len) && state == old(state) && up == old(up)
        invariant LengthSoFar(s, len, length, multiplier)
        decreases 5 - len
      {
        LengthTurns(s, len, length, multiplier);
        if len == 5 {
          state := Session.DISCONNECTED;
          Stop();
          return Endless, len;
        }
        var ok, digit := ReadByte();
        if !ok { return RanOut, len; }
        NextTaken(s, len, buffer[..]);
        buffer[len] := digit;
        len := len + 1;
        length := length + digit % 128 * multiplier;
        multiplier := multiplier * 128;
        if digit < 128 { break; }
      }
      r := Known(length, len - 1);
    }

    /** The rest of a packet: `n` bytes, stored as far as the buffer goes. */
    method ReadRest(ghost s: seq<byte>, at: nat, n: nat) returns (ok: bool, len: nat)
      requires Valid() && Taken(s, at)
      modifies `unread, buffer
      ensures ok <==> at + n <= |s|
      ensures !ok ==> unread == []
      ensures ok ==> unread == s[at + n..]
      ensures ok ==> if at + n <= buffer.Length then len == at + n && Taken(s, len) else len == 0
    {
      len := at;
      var idx := at;
      for i := 0 to n
        invariant idx == at + i <= |s| && unread == s[idx..]
        invariant len == (if idx <= buffer.Length then idx else buffer.Length)
        invariant buffer[..len] == s[..len]
      {
        var digit;
        ok, digit := ReadByte();
        if !ok { return false, 0; }
        assert digit == s[idx];
        if len < buffer.Length {
          NextTaken(s, len, buffer[..]);
          buffer[len] := digit;
          len := len + 1;
        }
        idx := idx + 1;
      }
      ok := true;
      if idx > buffer.Length { len := 0; }
    }

    /** `readPacket`, without a stream to copy the payload to. */
    method ReadOnePacket() returns (len: nat, llen: nat)
      requires Valid()
      modifies `unread, `state, `up, buffer
      ensures var s := old(unread);
        match ReadPacket(s, buffer.Length)
        case TimedOut => len == 0 && unread == [] && state == old(state) && up == old(up)
        case Killed => len == 0 && state == Session.DISCONNECTED && !up
        case Skipped(total) => len == 0 && total <= |s| && unread == s[total..] && state == old(state) && up == old(up)
        case Got(total, k) => len == total && llen == k && Taken(s, total) && state == old(state) && up == old(up)
    {
      hide ReadLength;
      ghost var s := unread;
      llen := 0;
      var ok;
      ok, len := ReadByteTo(0);
      if !ok { return 0, 0; }
      FirstTaken(s, buffer[..]);
      var r;
      r, len := ReadLengthBytes(s);
      if !r.Known? { return 0, 0; }
      llen := len - 1;
      ghost var header, total := s[0], Total(s[0], r.value, llen);
      assert buffer[0] == buffer[..len][0] == header;
      var start := 0;
      if TypeOf(buffer[0]) == PUBLISH {
        start := 2;
        ok, len := ReadTopicLength(s, len);
        if !ok { return 0, 0; }
      }
      ok, len := ReadRest(s, len, if r.value < start then 0 else r.value - start);
      if !ok { return 0, 0; }
    }

    /** The two bytes of a topic length. */
    method ReadTopicLength(ghost s: seq<byte>, len0: nat) returns (ok: bool, len: nat)
      requires Valid() && Taken(s, len0) && len0 <= 5
      modifies `unread, buffer
      ensures ok <==> len0 + 2 <= |s|
      ensures ok ==> len == len0 + 2 && Taken(s, len)
      ensures !ok ==> unread == []
    {
      len := len0;
      if len < |s| { NextTaken(s, len, buffer[..]); }
      ok, len := ReadByteTo(len);
      if !ok { return; }
      if len < |s| { NextTaken(s, len, buffer[..]); }
      ok, len := ReadByteTo(len);
    }

    // ----- Connecting

    /** The check in front of every string, which closes the connection, and the string itself. */
    method AddString(s: seq<byte>, pos0: nat, ghost done: seq<seq<byte>>, ghost head: seq<byte>) returns (ok: bool, pos: nat)
      requires Valid() && 5 <= pos0 <= buffer.Length && Written(done, head, buffer[5..pos0])
      modifies `up, `unread, buffer
      ensures ok <==> pos0 + 2 + |s| <= buffer.Length
      ensures !ok ==> !up
      ensures ok ==> up == old(up) && unread == old(unread)
      ensures ok ==> pos == pos0 + 2 + |s| && Written(done + [s], head, buffer[5..pos])
    {
      hide Written, Field;
      pos := pos0;
      var length := if |s| < buffer.Length then |s| else buffer.Length;
      if pos + 2 + length > buffer.Length {
        Stop();
        return false, pos;
      }
      ghost var before := buffer[..];
      pos := WriteString(s, pos);
      FromFive(before, Field(s), pos0, buffer[..]);
      WrittenNext(done, head, before[5..pos0], s);
      ok := true;
    }

    /** The strings of a CONNECT packet, in their order. */
    method AddStrings(a: ConnectArgs, ghost head: seq<byte>) returns (ok: bool, pos: nat)
      requires Valid() && |head| == 10 && buffer[5..15] == head
      modifies `up, `unread, buffer
      ensures ok <==> ConnectFits(a, buffer.Length)
      ensures !ok ==> !up
      ensures ok ==> up == old(up) && unread == old(unread)
      ensures ok ==> 5 <= pos <= buffer.Length && SmallStrings(Strings(a)) && buffer[5..pos] == head + Fields(Strings(a))
    {
      hide Written, SmallStrings, Fields, FieldsSize, Strings, ConnectFits, WillStrings, UserStrings;
      NothingWritten(head);
      ghost var size, all := buffer.Length, Strings(a);
      StringsBegin(a);
      TooMuch(a, [], a.id, head, head, size);
      ok, pos := AddString(a.id, STRINGS_AT, [], head);
      if !ok { return; }
      ok, pos := AddWill(a, pos, head);
      if !ok { return; }
      ok, pos := AddUser(a, pos, head);
      if ok { AllWritten(a, all, head, buffer[5..pos], size); }
    }

    method AddWill(a: ConnectArgs, pos0: nat, ghost head: seq<byte>) returns (ok: bool, pos: nat)
      requires Valid() && |head| == 10 && 5 <= pos0 <= buffer.Length && Written([a.id], head, buffer[5..pos0])
      modifies `up, `unread, buffer
      ensures !ok ==> !up && !ConnectFits(a, buffer.Length)
      ensures ok ==> up == old(up) && unread == old(unread)
      ensures ok ==> 5 <= pos <= buffer.Length && Written([a.id] + WillStrings(a), head, buffer[5..pos])
    {
      hide Written, SmallStrings, Fields, FieldsSize, Strings, ConnectFits, WillStrings;
      ok, pos := true, pos0;
      ghost var size := buffer.Length;
      StringsBegin(a);
      if a.will.Some? {
        var topic, message := a.will.value.topic, a.will.value.message;
        TooMuch(a, [a.id], topic, head, buffer[5..pos], size);
        ok, pos := AddString(topic, pos, [a.id], head);
        if ok {
          TooMuch(a, [a.id] + [topic], message, head, buffer[5..pos], size);
          ok, pos := AddString(message, pos, [a.id] + [topic], head);
        }
      }
    }

    method AddUser(a: ConnectArgs, pos0: nat, ghost head: seq<byte>) returns (ok: bool, pos: nat)
      requires Valid() && |head| == 10 && 5 <= pos0 <= buffer.Length && Written([a.id] + WillStrings(a), head, buffer[5..pos0])
      modifies `up, `unread, buffer
      ensures !ok ==> !up && !ConnectFits(a, buffer.Length)
      ensures ok ==> up == old(up) && unread == old(unread)
      ensures ok ==> 5 <= pos <= buffer.Length && Written(Strings(a), head, buffer[5..pos])
    {
      hide Written, SmallStrings, Fields, FieldsSize, Strings, ConnectFits, WillStrings, UserStrings;
      ok, pos := true, pos0;
      ghost var done, size := [a.id] + WillStrings(a), buffer.Length;
      StringsBegin(a);
      if a.user.Some? {
        TooMuch(a, done, a.user.value, head, buffer[5..pos], size);
        ok, pos := AddString(a.user.value, pos, done, head);
        if ok && a.pass.Some? {
          TooMuch(a, done + [a.user.value], a.pass.value, head, buffer[5..pos], size);
          ok, pos := AddString(a.pass.value, pos, done + [a.user.value], head);
        }
      }
    }

    /** `connect`: whether the dialling succeeds, and what is heard before the time is up, is given. */
    method Connect(a: ConnectArgs, dialled: bool, sentAt: Time, reply: seq<byte>, repliedAt: Time) returns (ok: bool)
      requires Valid() && (a.will.Some? ==> a.will.value.qos < 4)
      modifies `state, `up, `unread, `sent, `lastIn, `lastOut, `nextMsgId, `pingOutstanding, buffer
      ensures var heard := (if old(up) then old(unread) else []) + reply;
        Value() == Session.AfterConnect(old(Value()), dialled, ConnectFits(a, buffer.Length), sentAt, ReplyOf(heard, buffer.Length), repliedAt).0
      ensures ok <==> Session.IsConnected(Value())
      ensures sent == old(sent) +
        if !Session.IsConnected(old(Value())) && (old(up) || dialled) && ConnectFits(a, buffer.Length)
        then ConnectPacket(a, keepAlive) else []
    {
      hide ConnectFits, ReplyOf, ConnectPacket;
      ok := Connected();
      if ok { return true; }
      if !up {
        if !dialled {
          state := Session.CONNECT_FAILED;
          return false;
        }
        up, unread := true, [];
      }
      nextMsgId := 1;
      ok := SendConnect(a, sentAt);
      if !ok { return false; }
      lastIn, lastOut := sentAt, sentAt;
      unread := unread + reply;
      ok := AwaitReply(repliedAt);
    }

    /** The protocol name and version, behind the gap. */
    method WriteName() returns (length: nat)
      requires Valid()
      modifies buffer
      ensures length == 12 && buffer[5..12] == ProtocolName
    {
      length := MAX_HEADER_SIZE;
      for j := 0 to 7
        invariant length == MAX_HEADER_SIZE + j && buffer[5..length] == ProtocolName[..j]
        modifies buffer
      {
        StoreNext(buffer[..], length, ProtocolName[j]);
        PrefixNext(ProtocolName, j);
        buffer[length] := ProtocolName[j];
        length := length + 1;
      }
      assert ProtocolName[..7] == ProtocolName;
    }

    /** The variable header and the strings, and the packet itself. */
    method SendConnect(a: ConnectArgs, now: Time) returns (ok: bool)
      requires Valid() && (a.will.Some? ==> a.will.value.qos < 4)
      modifies `up, `unread, `sent, `lastOut, buffer
      ensures ok <==> ConnectFits(a, buffer.Length)
      ensures !ok ==> !up && sent == old(sent) && lastOut == old(lastOut)
      ensures ok ==> up == old(up) && unread == old(unread) && sent == old(sent) + ConnectPacket(a, keepAlive)
    {
      hide ConnectFlags, ConnectHead, Strings, SmallStrings, Fields, ConnectFits, Packet;
      var length := WriteName();
      StoreNext(buffer[..], 12, ConnectFlags(a));
      buffer[length] := ConnectFlags(a);
      StoreNext(buffer[..], 13, keepAlive / 256);
      buffer[length + 1] := keepAlive / 256;
      StoreNext(buffer[..], 14, keepAlive % 256);
      buffer[length + 2] := keepAlive % 256;
      HeadBytes(a, keepAlive);
      ok, length := AddStrings(a, ConnectHead(a, keepAlive));
      if ok {
        var _ := WritePacket(CONNECT, length - MAX_HEADER_SIZE, now);
      }
    }

    /** The reply: accepted when it is a packet of four bytes whose last is 0. */
    method AwaitReply(repliedAt: Time) returns (ok: bool)
      requires Valid() && up && state != Session.CONNECTED
      modifies `state, `up, `unread, `lastIn, `pingOutstanding, buffer
      ensures ok <==> Session.IsConnected(Value())
      ensures var r, s := ReplyOf(old(unread), buffer.Length), old(Value());
        && (ok <==> r == Session.Reply(4, 0))
        && Value() == if ok then s.(lastIn := repliedAt, ping := false, state := Session.CONNECTED)
             else s.(up := false, state := if r.NoReply? then Session.CONNECTION_TIMEOUT
                       else if r.KilledReply? then Session.DISCONNECTED
                       else if r.size == 4 then r.code
                       else s.state)
    {
      hide ReadPacket;
      ghost var s := unread;
      if unread == [] {
        state := Session.CONNECTION_TIMEOUT;
        Stop();
        return false;
      }
      var len, llen := ReadOnePacket();
      ReadingBounds(s, buffer.Length);
      if len == 4 {
        assert buffer[3] == buffer[..4][3] == s[..4][3] == s[3];
        if buffer[3] == 0 {
          lastIn := repliedAt;
          pingOutstanding := false;
          state := Session.CONNECTED;
          return true;
        } else {
          state := buffer[3];
        }
      }
      Stop();
      ok := false;
    }

    // ----- The loop

    /**
     A PUBLISH packet at the front of the buffer: the topic is moved down by one byte, over the low byte of
     its length, to make room for its NUL.
     */
    method DeliverPublish(len: nat, llen: nat, t: Time)
      requires Valid() && len <= buffer.Length && 1 <= llen && WellFormedPublish(buffer[..len], llen)
      modifies `sent, `lastOut, `calls, buffer
      ensures var p := old(buffer[..len]);
        && calls == old(calls) + [Delivered(p, llen)]
        && sent == old(sent) + (if HasId(p[0]) then Ack(p, llen) else [])
        && lastOut == if HasId(p[0]) then t else old(lastOut)
    {
      hide CString, HasId, WellFormedPublish, Delivered, Ack, PayloadAt, Word;
      ghost var whole, p := buffer[..], buffer[..len];
      PublishInBuffer(whole, len, llen);
      var tl := Word(buffer[llen + 1], buffer[llen + 2]);
      var topic := TopicInPlace(len, llen, tl);
      SameBehind(buffer[..], whole, llen + 3 + tl, len);
      if HasId(buffer[0]) {
        var hi, lo := buffer[llen + 3 + tl], buffer[llen + 3 + tl + 1];
        var payload := buffer[llen + 3 + tl + 2..len];
        calls := calls + [Call(topic, payload)];
        SendAck(Word(hi, lo));
        WordParts(hi, lo);
        lastOut := t;
      } else {
        var payload := buffer[llen + 3 + tl..len];
        calls := calls + [Call(topic, payload)];
      }
    }

    /** Moves the topic, ends it, and reads it as a C string. */
    method TopicInPlace(len: nat, llen: nat, tl: nat) returns (topic: seq<byte>)
      requires Valid() && 1 <= llen && llen + 3 + tl <= len <= buffer.Length
      modifies buffer
      ensures topic == CString(old(buffer[..len])[llen + 3..llen + 3 + tl])
      ensures buffer[0] == old(buffer[0]) && buffer[llen + 3 + tl..] == old(buffer[llen + 3 + tl..])
      ensures forall i :: llen + 3 + tl <= i < len ==> buffer[i] == old(buffer[i])
    {
      ghost var whole, text := buffer[..], buffer[..len][llen + 3..llen + 3 + tl];
      forall i | 0 <= i < tl {
        buffer[llen + 2 + i] := buffer[llen + 3 + i];
      }
      buffer[llen + 2 + tl] := 0;
      MovedDown(whole, buffer[..], llen + 2, tl, len);
      CStringStops(text, buffer[llen + 3 + tl..]);
      topic := CString(buffer[llen + 2..]);
    }

    method SendAck(msgId: nat)
      requires Valid() && msgId < 0x1_0000
      modifies `sent, buffer
      ensures sent == old(sent) + [PUBACK, 2, msgId / 256, msgId % 256]
    {
      buffer[0] := PUBACK;
      buffer[1] := 2;
      buffer[2] := msgId / 256;
      buffer[3] := msgId % 256;
      sent := sent + buffer[..4];
    }

    /** The keep-alive check at the head of `loop`. */
    method KeepAlive(t: Time) returns (ok: bool)
      requires Valid() && up
      modifies `state, `up, `unread, `pingOutstanding, `lastIn, `lastOut, `sent, buffer
      ensures Value() == Session.AfterKeepAlive(old(Value()), t, keepAlive).0
      ensures ok <==> up
      ensures ok ==> unread == old(unread)
      ensures sent == old(sent) + if Session.Expired(old(Value()), t, keepAlive) && !old(pingOutstanding) then [PINGREQ, 0] else []
    {
      if Session.Elapsed(t, lastIn) > keepAlive * 1000 || Session.Elapsed(t, lastOut) > keepAlive * 1000 {
        if pingOutstanding {
          state := Session.CONNECTION_TIMEOUT;
          Stop();
          return false;
        } else {
          buffer[0] := PINGREQ;
          buffer[1] := 0;
          sent := sent + buffer[..2];
          lastOut := t;
          lastIn := t;
          pingOutstanding := true;
        }
      }
      return true;
    }

    /** The packet that has arrived, if one has. */
    method Incoming(t: Time) returns (unusable: bool)
      requires Valid() && up
      requires hasCallback && IsPublish(unread, buffer.Length) ==> WellFormedFront(unread, buffer.Length)
      modifies `state, `up, `unread, `pingOutstanding, `lastIn, `lastOut, `sent, `calls, buffer
      ensures Value() == Session.AfterGot(old(Value()), t, GotOf(old(unread), buffer.Length, hasCallback)).0
      ensures calls == old(calls) + Calls(old(unread), buffer.Length, hasCallback)
      ensures sent == old(sent) + Answer(old(unread), buffer.Length, hasCallback)
      ensures !unusable ==> up && state == old(state)
      ensures ReadPacket(old(unread), buffer.Length).Got? ==> unread == old(unread)[ReadPacket(old(unread), buffer.Length).total..]
    {
      hide ReadPacket, GotOf, Calls, Answer, IsPublish, WellFormedFront, WellFormedPublish, Delivered, Ack, HasId;
      ghost var s := unread;
      NoPacket(s, buffer.Length, hasCallback);
      if unread == [] { return false; }
      var len, llen := ReadOnePacket();
      ReadingBounds(s, buffer.Length);
      if len > 0 {
        OnePacket(s, buffer.Length, hasCallback, len, llen);
        assert buffer[..len] == s[..len] && buffer[0] == buffer[..len][0] == s[0];
        lastIn := t;
        var mt := TypeOf(buffer[0]);
        if mt == PUBLISH {
          if hasCallback {
            DeliverPublish(len, llen, t);
          }
        } else if mt == PINGREQ {
          buffer[0] := PINGRESP;
          buffer[1] := 0;
          sent := sent + buffer[..2];
        } else if mt == PINGRESP {
          pingOutstanding := false;
        }
      }
      unusable := len == 0;
    }

    /** `loop`: the keep-alive check, and one packet. A message for a callback must be well formed. */
    method Loop(t: Time) returns (ok: bool)
      requires Valid()
      requires hasCallback && IsPublish(unread, buffer.Length) ==> WellFormedFront(unread, buffer.Length)
      modifies `state, `up, `unread, `pingOutstanding, `lastIn, `lastOut, `sent, `calls, buffer
      ensures Value() == Session.AfterLoop(old(Value()), t, keepAlive, GotOf(old(unread), buffer.Length, hasCallback)).0
      ensures ok <==> Session.IsConnected(Value())
      ensures var s := old(Value());
        var pings := Session.IsConnected(s) && Session.Expired(s, t, keepAlive) && !s.ping;
        var takes := Session.IsConnected(s) && !(Session.Expired(s, t, keepAlive) && s.ping);
        && sent == old(sent) + (if pings then [PINGREQ, 0] else []) + (if takes then Answer(old(unread), buffer.Length, hasCallback) else [])
        && calls == old(calls) + if takes then Calls(old(unread), buffer.Length, hasCallback) else []
    {
      hide GotOf, Answer, Calls, IsPublish, WellFormedFront;
      ok := Connected();
      if !ok { return false; }
      ok := KeepAlive(t);
      if !ok { return false; }
      var unusable := Incoming(t);
      if unusable {
        ok := Connected();
      }
    }
  }

  /** A well-formed PUBLISH packet at the front of a buffer, part by part. */
  lemma PublishInBuffer(b: seq<byte>, len: nat, llen: nat)
    requires 1 <= llen && len <= |b| && WellFormedPublish(b[..len], llen)
    ensures llen + 3 <= len
    ensures var p, tl := b[..len], Word(b[llen + 1], b[llen + 2]);
      var at := llen + 3 + tl + if HasId(b[0]) then 2 else 0;
      && at <= len && p[0] == b[0]
      && Delivered(p, llen) == Call(CString(p[llen + 3..llen + 3 + tl]), b[at..len])
      && (HasId(b[0]) ==> Ack(p, llen) == [PUBACK, 2, b[at - 2], b[at - 1]])
  {
    hide CString, HasId, Word;
    var at := PayloadAt(b[..len], llen);
    assert b[..len][at..] == b[at..len];
  }

  lemma MovedDown(was: seq<byte>, b: seq<byte>, at: nat, tl: nat, len: nat)
    requires |b| == |was| && at + 1 + tl <= len <= |b| && b[at + tl] == 0
    requires forall i :: at <= i < at + tl ==> b[i] == was[i + 1]
    ensures b[at..] == was[..len][at + 1..at + 1 + tl] + [0] + b[at + 1 + tl..]
  {
    var text := was[..len][at + 1..at + 1 + tl];
    forall i | 0 <= i < tl ensures b[at..][i] == text[i] {
      assert b[at + i] == was[at + i + 1];
    }
  }

  lemma SameBehind(b: seq<byte>, was: seq<byte>, from: nat, len: nat)
    requires |b| == |was| && from <= len <= |b| && b[from..] == was[from..]
    ensures forall i :: from <= i < len ==> b[i] == was[i]
    ensures b[from..len] == was[from..len] && (from + 2 <= len ==> b[from + 2..len] == was[from + 2..len])
  {
    assert forall i :: from <= i < len ==> b[i] == b[from..][i - from] && was[i] == was[from..][i - from];
  }

  lemma WordParts(hi: byte, lo: byte)
    ensures Word(hi, lo) / 256 == hi && Word(hi, lo) % 256 == lo && Word(hi, lo) < 0x1_0000
  {}

  /** Nothing to be had from what has arrived. */
  lemma NoPacket(s: seq<byte>, bufferSize: nat, hasCallback: bool)
    ensures s == [] ==> ReadPacket(s, bufferSize) == TimedOut
    ensures !ReadPacket(s, bufferSize).Got? ==>
      && Calls(s, bufferSize, hasCallback) == [] && Answer(s, bufferSize, hasCallback) == []
      && GotOf(s, bufferSize, hasCallback) ==
           if s == [] then Session.Nothing else if ReadPacket(s, bufferSize).Killed? then Session.Killed else Session.Ignored
  {}

  /** What is made of a packet, by its type. */
  lemma OnePacket(s: seq<byte>, bufferSize: nat, hasCallback: bool, total: nat, llen: nat)
    requires ReadPacket(s, bufferSize) == Got(total, llen) && 1 <= total <= |s|
    requires hasCallback && IsPublish(s, bufferSize) ==> WellFormedFront(s, bufferSize)
    ensures var p, calls, answer, got :=
        s[..total], Calls(s, bufferSize, hasCallback), Answer(s, bufferSize, hasCallback), GotOf(s, bufferSize, hasCallback);
      if TypeOf(p[0]) == PUBLISH && hasCallback then
        && WellFormedPublish(p, llen) && calls == [Delivered(p, llen)]
        && answer == (if HasId(p[0]) then Ack(p, llen) else [])
        && got == if HasId(p[0]) then Session.Acknowledged else Session.Other
      else
        && calls == [] && answer == (if TypeOf(p[0]) == PINGREQ then [PINGRESP, 0] else [])
        && got == if TypeOf(p[0]) == PINGRESP then Session.Pong else Session.Other
  {
    hide ReadPacket, WellFormedPublish, Delivered, Ack;
  }

  /** A packet that is got lies within what has arrived, and is not empty. */
  lemma ReadingBounds(s: seq<byte>, bufferSize: nat)
    ensures var r := ReadPacket(s, bufferSize);
      r.Got? ==> 1 <= r.llen && 2 <= r.total <= |s| && r.total <= bufferSize
  {
    if s != [] { LengthWithin(s[1..], 0); }
  }

  lemma CutBehind(b: seq<byte>, x: seq<byte>, f: seq<byte>, rest: seq<byte>)
    requires b == x + f + rest
    ensures b[..|x| + |f|] == x + f
  {}

  lemma PublishParts(retained: bool, topic: seq<byte>, payload: seq<byte>, front: seq<byte>)
    requires |topic| < 0x1_0000
    requires front == [if retained then PUBLISH + 1 else PUBLISH] + RemainingLength(2 + |topic| + |payload|)
    ensures PublishPacket(retained, topic, payload) == front + Field(topic) + payload
  {
    hide RemainingLength, Field;
    var body := Field(topic) + payload;
    assert |body| == 2 + |topic| + |payload|;
    assert PublishPacket(retained, topic, payload) == front + body;
    Assoc(front, Field(topic), payload);
  }

  lemma FirstStored(b: seq<byte>, c: byte)
    requires b != []
    ensures b[0 := c][..1] == [c]
  {}

  lemma Behind(was: seq<byte>, f: seq<byte>, b: seq<byte>)
    requires 5 + |f| <= |was| && b == was[..5] + f + was[5 + |f|..]
    ensures b[5..][..|f|] == f
  {}

  lemma FromNothing(b: seq<byte>, s: seq<byte>)
    ensures b[..0] + s == s
  {}

  lemma StoreNext(b: seq<byte>, at: nat, c: byte)
    requires 5 <= at < |b|
    ensures b[at := c][5..at + 1] == b[5..at] + [c]
  {}

  lemma PrefixNext(s: seq<byte>, i: nat)
    requires i < |s|
    ensures s[..i + 1] == s[..i] + [s[i]]
  {}

  lemma HeadBytes(a: ConnectArgs, keepAlive: uint16)
    requires a.will.Some? ==> a.will.value.qos < 4
    ensures ProtocolName + [ConnectFlags(a)] + [keepAlive / 256] + [keepAlive % 256] == ConnectHead(a, keepAlive)
  {
    hide ConnectFlags;
  }

  lemma FromFive(before: seq<byte>, f: seq<byte>, at: nat, after: seq<byte>)
    requires 5 <= at && at + |f| <= |before| && after == before[..at] + f + before[at + |f|..]
    ensures after[5..at + |f|] == before[5..at] + f
  {}

  lemma CutAtFive(s: seq<byte>, a: nat, b: nat)
    requires a <= 5 <= b <= |s|
    ensures s[a..b] == s[a..5] + s[5..][..b - 5]
  {}

  lemma FirstTaken(s: seq<byte>, buf: seq<byte>)
    requires s != [] && buf != [] && buf[0] == s[0]
    ensures buf[..1] == s[..1]
  {}

  /** The value of a length whose first bytes have given `length`. */
  function Onward(l: Length, length: nat, multiplier: nat, count: nat): Length {
    match l
    case Known(v, c) => Known(length + multiplier * v, count + c)
    case other => other
  }

  /** The remaining length in s, when its bytes before `len` have given `length`. */
  predicate LengthSoFar(s: seq<byte>, len: nat, length: nat, multiplier: nat) {
    && 1 <= len <= |s|
    && ReadLength(s[1..], 0) == Onward(ReadLength(s[len..], len - 1), length, multiplier, len - 1)
  }

  lemma LengthBegins(s: seq<byte>)
    requires s != []
    ensures LengthSoFar(s, 1, 0, 1)
  {}

  lemma LengthTurns(s: seq<byte>, len: nat, length: nat, multiplier: nat)
    requires LengthSoFar(s, len, length, multiplier) && len <= 5
    ensures len == 5 ==> ReadLength(s[1..], 0) == Endless
    ensures len < 5 && len == |s| ==> ReadLength(s[1..], 0) == RanOut
    ensures len < 5 && len < |s| ==>
      if s[len] < 128 then ReadLength(s[1..], 0) == Known(length + s[len] % 128 * multiplier, len)
      else LengthSoFar(s, len + 1, length + s[len] % 128 * multiplier, multiplier * 128)
  {
    hide ReadLength, Onward;
    if len == 5 {
      FiveIsEndless(s[len..], length, multiplier);
    } else {
      LengthStep(s[len..], len - 1, length, multiplier, len - 1);
      NothingRead(length, multiplier, len - 1);
      if len < |s| { assert s[len..][0] == s[len] && s[len..][1..] == s[len + 1..]; }
    }
  }

  lemma FiveIsEndless(s: seq<byte>, length: nat, multiplier: nat)
    ensures Onward(ReadLength(s, 4), length, multiplier, 4) == Endless
  {}

  lemma NothingRead(length: nat, multiplier: nat, count: nat)
    ensures Onward(RanOut, length, multiplier, count) == RanOut
  {}

  lemma {:induction false} LengthStep(s: seq<byte>, k: nat, length: nat, multiplier: nat, count: nat)
    requires k < 4
    ensures s == [] ==> ReadLength(s, k) == RanOut
    ensures s != [] && s[0] < 128 ==>
      Onward(ReadLength(s, k), length, multiplier, count) == Known(length + s[0] % 128 * multiplier, count + 1)
    ensures s != [] && s[0] >= 128 ==>
      Onward(ReadLength(s, k), length, multiplier, count)
        == Onward(ReadLength(s[1..], k + 1), length + s[0] % 128 * multiplier, multiplier * 128, count + 1)
  {
    hide ReadLength;
    LengthOnce(s, k);
    if s != [] && s[0] >= 128 {
      var l := ReadLength(s[1..], k + 1);
      if l.Known? { ShiftedLength(s[0] - 128, l.value, multiplier); }
    }
  }

  lemma LengthOnce(s: seq<byte>, k: nat)
    requires k < 4
    ensures s == [] ==> ReadLength(s, k) == RanOut
    ensures s != [] && s[0] < 128 ==> ReadLength(s, k) == Known(s[0], 1)
    ensures s != [] && s[0] >= 128 ==>
      var l := ReadLength(s[1..], k + 1);
      ReadLength(s, k) == if l.Known? then Known(s[0] - 128 + 128 * l.value, l.count + 1) else l
  {}

  lemma ShiftedLength(c: nat, v: nat, m: nat)
    ensures m * (c + 128 * v) == c * m + (m * 128) * v
  {}

  /** One byte more has been taken. */
  lemma NextTaken(s: seq<byte>, n: nat, buf: seq<byte>)
    requires n < |s| && n < |buf| && buf[..n] == s[..n]
    ensures s[n..][0] == s[n] && s[n..][1..] == s[n + 1..]
    ensures buf[n := s[n]][..n + 1] == s[..n + 1]
  {}

  /** The text t has been written over orig. */
  ghost predicate Put(orig: seq<byte>, at: nat, t: seq<byte>, now: seq<byte>) {
    at + |t| <= |orig| && now == orig[..at] + t + orig[at + |t|..]
  }

  lemma PutNext(orig: seq<byte>, at: nat, s: seq<byte>, i: nat, now: seq<byte>)
    requires i < |s| && at + i < |orig| && Put(orig, at, s[..i], now)
    ensures |now| == |orig| && Put(orig, at, s[..i + 1], now[at + i := s[i]])
  {}

  /** Filling in the length in front of a string that has been written. */
  lemma SetWord(orig: seq<byte>, pos: nat, s: seq<byte>, now: seq<byte>, hi: byte, lo: byte)
    requires pos + 2 + |s| <= |orig| && |s| < 0x1_0000 && hi == |s| / 256 && lo == |s| % 256
    requires Put(orig, pos + 2, s, now)
    ensures |now| == |orig| && now[pos := hi][pos + 1 := lo] == orig[..pos] + Field(s) + orig[pos + 2 + |s|..]
  {
    assert WordBytes(|s|) == [hi, lo];
    hide WordBytes;
  }

  lemma NothingPut(orig: seq<byte>, at: nat, s: seq<byte>)
    requires at <= |orig|
    ensures Put(orig, at, s[..0], orig)
  {}

  // ----- Publisher and subscriber

  /**
   A message that passes the size check of `publish` reaches the callback of a client with the same buffer
   size unchanged, and asks for no answer.
   */
  lemma PublishReachesCallback(retained: bool, topic: seq<byte>, payload: seq<byte>, rest: seq<byte>, bufferSize: nat)
    requires MAX_HEADER_SIZE + 2 + |topic| + |payload| <= bufferSize < 0x1_0000 && 0 !in topic
    ensures var s := PublishPacket(retained, topic, payload) + rest;
      && IsPublish(s, bufferSize) && WellFormedFront(s, bufferSize)
      && Calls(s, bufferSize, true) == [Call(topic, payload)] && Answer(s, bufferSize, true) == []
      && GotOf(s, bufferSize, true) == Session.Other
      && ReadPacket(s, bufferSize).Got? && s[ReadPacket(s, bufferSize).total..] == rest
  {
    hide ReadPacket, WellFormedPublish, Delivered;
    PublishedIsDelivered(retained, topic, payload, rest, bufferSize);
    PublishDelivers(retained, topic, payload);
    var p := PublishPacket(retained, topic, payload);
    assert (p + rest)[0] == p[0];
  }

  /**
   A message of quality of service 1 from the server leads to one call of the callback with its topic and
   payload, and is acknowledged with its identifier.
   */
  lemma QualityOneIsAcknowledged(header: byte, topic: seq<byte>, id: nat, payload: seq<byte>, rest: seq<byte>, bufferSize: nat)
    requires header in {0x32, 0x33, 0x3a, 0x3b} && id < 0x1_0000 && |topic| < 0x1_0000 && 0 !in topic
    requires |Packet(header, Field(topic) + (WordBytes(id) + payload))| <= bufferSize < 0x1_0000
    ensures var s := Packet(header, Field(topic) + (WordBytes(id) + payload)) + rest;
      && IsPublish(s, bufferSize) && WellFormedFront(s, bufferSize)
      && Calls(s, bufferSize, true) == [Call(topic, payload)]
      && Answer(s, bufferSize, true) == [0x40, 2] + WordBytes(id)
      && GotOf(s, bufferSize, true) == Session.Acknowledged
  {
    hide ReadPacket, WellFormedPublish, Delivered, Ack, HasId, RemainingLength, Field, WordBytes, Packet, Pow;
    assert header / 16 == 3 && Quality(header) == 1;
    MessageIsRead(header, topic, id, payload, rest, bufferSize);
  }

  /** A message that fits the buffer is read and delivered as its quality of service says. */
  lemma MessageIsRead(header: byte, topic: seq<byte>, id: nat, payload: seq<byte>, rest: seq<byte>, bufferSize: nat)
    requires header / 16 == 3 && id < 0x1_0000 && |topic| < 0x1_0000 && 0 !in topic
    requires |Message(header, topic, id, payload)| <= bufferSize < 0x1_0000
    ensures var s, quality := Message(header, topic, id, payload) + rest, Quality(header);
      && IsPublish(s, bufferSize) && WellFormedFront(s, bufferSize)
      && Calls(s, bufferSize, true) == [Call(topic, if quality < 2 then payload else WordBytes(id) + payload)]
      && Answer(s, bufferSize, true) == (if quality == 1 then [0x40, 2] + WordBytes(id) else [])
      && GotOf(s, bufferSize, true) == if quality == 1 then Session.Acknowledged else Session.Other
  {
    hide ReadPacket, WellFormedPublish, Delivered, Ack, HasId, RemainingLength, Field, WordBytes, BehindTopic, Pow, Quality;
    var behind := BehindTopic(header, id, payload);
    var llen := |RemainingLength(2 + |topic| + |behind|)|;
    MessageDelivers(header, topic, id, payload, llen);
    HeaderBits(header);
    FourBytes();
    var p := Message(header, topic, id, payload);
    PacketIsRead(header, Field(topic) + behind, rest, bufferSize);
    assert (p + rest)[..|p|] == p && (p + rest)[0] == p[0];
    assert |Field(topic) + behind| == 2 + |topic| + |behind|;
  }

  /** A server's ping is answered, and its answer to a ping is noticed; neither reaches the callback. */
  lemma PingsAreAnswered(rest: seq<byte>, bufferSize: nat, hasCallback: bool)
    requires bufferSize >= 2
    ensures var s := [0xc0, 0] + rest;
      && Answer(s, bufferSize, hasCallback) == [0xd0, 0] && Calls(s, bufferSize, hasCallback) == []
      && GotOf(s, bufferSize, hasCallback) == Session.Other
    ensures var s := [0xd0, 0] + rest;
      && Answer(s, bufferSize, hasCallback) == [] && Calls(s, bufferSize, hasCallback) == []
      && GotOf(s, bufferSize, hasCallback) == Session.Pong
  {
    hide ReadPacket, Pow;
    FourBytes();
    assert RemainingLength(0) == [0];
    assert Packet(0xc0, []) == [0xc0, 0] && Packet(0xd0, []) == [0xd0, 0];
    PacketIsRead(0xc0, [], rest, bufferSize);
    PacketIsRead(0xd0, [], rest, bufferSize);
  }

  // ----- Accepting a connection

  /** The bytes of a CONNACK that accepts. */
  predicate IsAcceptingConnack(p: seq<byte>) {
    |p| == 4 && p[0] == 0x20 && p[1] == 2 && p[3] == 0
  }

  predicate Accepts(s: seq<byte>, bufferSize: nat) {
    ReplyOf(s, bufferSize) == Session.Reply(4, 0)
  }

  /**
   `connect` accepts exactly the packets of four bytes that end with 0. Such a packet is an accepting
   CONNACK exactly when its type and its length say so, which `connect` does not check.
   */
  lemma AcceptedExactly(s: seq<byte>, bufferSize: nat)
    requires bufferSize >= 4
    ensures var r := ReadPacket(s, bufferSize);
      && (Accepts(s, bufferSize) <==> r.Got? && r.total == 4 && s[..4][3] == 0)
      && (Accepts(s, bufferSize) ==> (IsAcceptingConnack(s[..4]) <==> s[0] == 0x20 && s[1] == 2))
  {
    ReadingBounds(s, bufferSize);
  }

  /**
   What `connect` makes of a CONNACK, and of silence, on a session that is not connected: connected on code 0,
   the code as the state on any other, and state -4 when nothing comes in time.
   */
  lemma ConnackOutcome(s: Session.Session, flags: byte, code: byte, rest: seq<byte>, bufferSize: nat, t: Time)
    requires !s.up && bufferSize >= 4
    ensures var r := Session.AfterConnect(s, true, true, t, ReplyOf([0x20, 2, flags, code] + rest, bufferSize), t).0;
      r.state == code && (Session.IsConnected(r) <==> code == 0) && (r.up <==> code == 0)
    ensures var r := Session.AfterConnect(s, true, true, t, ReplyOf([], bufferSize), t).0;
      r.state == -4 && !r.up
  {
    hide ReadPacket, Pow;
    FourBytes();
    LengthOfTwo(2);
    assert Packet(0x20, [flags, code]) == [0x20, 2, flags, code];
    PacketIsRead(0x20, [flags, code], rest, bufferSize);
  }

  /**
   Of the packets a server can send, exactly those with two bytes of body of which the second is 0 are
   accepted, whatever their type; and an accepted packet is an accepting CONNACK exactly by its type.
   */
  lemma AcceptedPackets(header: byte, body: seq<byte>, rest: seq<byte>, bufferSize: nat)
    requires bufferSize >= 4 && |body| < Pow(128, 4) && (TypeOf(header) == PUBLISH ==> |body| >= 2)
    ensures var p := Packet(header, body);
      && (Accepts(p + rest, bufferSize) <==> |body| == 2 && body[1] == 0)
      && (Accepts(p + rest, bufferSize) ==> (IsAcceptingConnack(p) <==> header == 0x20))
  {
    hide ReadPacket, Pow, RemainingLength;
    PacketIsRead(header, body, rest, bufferSize);
    LengthOfTwo(|body|);
    PacketSlices([header], RemainingLength(|body|), body);
    var p := Packet(header, body);
    assert |p| == 1 + |RemainingLength(|body|)| + |body|;
    if |body| == 2 {
      assert p == [header, 2] + body;
      assert (p + rest)[3] == p[3] == body[1];
    }
  }

  /** Two bytes are announced by one byte, and four bytes in all are announced by nothing else. */
  lemma LengthOfTwo(n: nat)
    ensures |RemainingLength(n)| + n == 3 <==> n == 2
    ensures n == 2 ==> RemainingLength(n) == [2]
    ensures n == 0 ==> |RemainingLength(n)| == 1
  {
    LengthTurn(n);
  }

  /** Every accepting CONNACK is accepted; and so is a PUBLISH packet with an empty topic. */
  lemma NotOnlyConnacks(flags: byte, rest: seq<byte>)
    ensures IsAcceptingConnack([0x20, 2, flags, 0]) && Accepts([0x20, 2, flags, 0] + rest, 256)
    ensures !IsAcceptingConnack(PublishPacket(false, [], [])) && Accepts(PublishPacket(false, [], []) + rest, 256)
  {
    hide ReadPacket;
    FourBytes();
    LengthSize(2, 1);
    assert Pow(128, 1) == 128 * Pow(128, 0);
    assert RemainingLength(2) == [2];
    assert Packet(0x20, [flags, 0]) == [0x20, 2, flags, 0];
    PacketIsRead(0x20, [flags, 0], rest, 256);
    assert Field([]) + [] == [0, 0];
    assert PublishPacket(false, [], []) == [0x30, 2, 0, 0];
    PacketIsRead(0x30, [0, 0], rest, 256);
  }

  // ----- Reading a CONNECT packet back

  /** A field at the front, and what follows it. */
  function TakeField(s: seq<byte>): Option<(seq<byte>, seq<byte>)> {
    if |s| < 2 then None
    else
      var n := Word(s[0], s[1]);
      if |s| < 2 + n then None else Some((s[2..2 + n], s[2 + n..]))
  }

  /** All the fields of a text that is nothing but fields. */
  function TakeFields(s: seq<byte>): Option<seq<seq<byte>>>
    decreases |s|
  {
    if s == [] then Some([])
    else
      var f := TakeField(s);
      if f.None? then None
      else
        var rest := TakeFields(f.value.1);
        if rest.None? then None else Some([f.value.0] + rest.value)
  }

  lemma TakeFieldRoundTrip(f: seq<byte>, rest: seq<byte>)
    requires |f| < 0x1_0000
    ensures TakeField(Field(f) + rest) == Some((f, rest))
  {
    hide WordBytes, Word;
    WordRoundTrip(|f|);
    var w := WordBytes(|f|);
    var s := w + f + rest;
    assert s[0] == w[0] && s[1] == w[1] && s[2..2 + |f|] == f && s[2 + |f|..] == rest;
  }

  lemma {:induction false} FieldsCons(ss: seq<seq<byte>>)
    requires ss != [] && SmallStrings(ss)
    ensures Fields(ss) == Field(ss[0]) + Fields(ss[1..])
  {
    var n := |ss| - 1;
    FieldsTurn(ss);
    if n == 0 {
      assert Fields(ss[..0]) == [] && Fields(ss[1..]) == [];
    } else {
      FieldsTurn(ss[1..]);
      hide Field, Fields;
      FieldsCons(ss[..n]);
      assert ss[..n][1..] == ss[1..][..n - 1];
      Assoc(Field(ss[0]), Fields(ss[1..][..n - 1]), Field(ss[n]));
    }
  }

  lemma FieldsTurn(ss: seq<seq<byte>>)
    requires ss != [] && SmallStrings(ss)
    ensures Fields(ss) == Fields(ss[..|ss| - 1]) + Field(ss[|ss| - 1])
  {}

  lemma {:induction false} FieldsRoundTrip(ss: seq<seq<byte>>)
    requires SmallStrings(ss)
    ensures TakeFields(Fields(ss)) == Some(ss)
  {
    hide Field, Fields, TakeField;
    if ss == [] {
      NoFields();
    } else {
      FieldsCons(ss);
      TakeFieldRoundTrip(ss[0], Fields(ss[1..]));
      FieldsRoundTrip(ss[1..]);
      assert ss == [ss[0]] + ss[1..];
    }
  }

  lemma NoFields()
    ensures Fields([]) == []
  {}

  /** What the flags say. */
  predicate HasWill(flags: byte) { flags / 4 % 2 == 1 }
  predicate HasUser(flags: byte) { flags / 128 == 1 }
  predicate HasPass(flags: byte) { flags / 64 % 2 == 1 }
  predicate IsClean(flags: byte) { flags / 2 % 2 == 1 }

  /** The arguments as a server finds them: a password without a user is not sent. */
  function Sent(a: ConnectArgs): ConnectArgs {
    a.(pass := if a.user.Some? then a.pass else None)
  }

  /** The arguments from the flags and the fields of a CONNECT packet; None when they do not agree. */
  function ReadArgs(flags: byte, ss: seq<seq<byte>>): Option<ConnectArgs> {
    var will, user, pass := HasWill(flags), HasUser(flags), HasPass(flags);
    if |ss| != 1 + (if will then 2 else 0) + (if user then 1 else 0) + (if pass then 1 else 0) then None
    else
      var at := if will then 3 else 1;
      Some(ConnectArgs(
        ss[0],
        if user then Some(ss[at]) else None,
        if pass then Some(ss[|ss| - 1]) else None,
        if will then Some(Will(ss[1], ss[2], flags / 8 % 4, flags / 32 % 2 == 1)) else None,
        IsClean(flags)))
  }

  lemma FlagsRoundTrip(a: ConnectArgs)
    requires a.will.Some? ==> a.will.value.qos < 4
    ensures var f := ConnectFlags(a);
      && (HasWill(f) <==> a.will.Some?) && (HasUser(f) <==> a.user.Some?)
      && (HasPass(f) <==> a.user.Some? && a.pass.Some?) && (IsClean(f) <==> a.cleanSession)
      && (a.will.Some? ==> f / 8 % 4 == a.will.value.qos && (f / 32 % 2 == 1 <==> a.will.value.retain))
  {
    var c := if a.cleanSession then 1 else 0;
    var w := if a.will.Some? then 1 else 0;
    var q := if a.will.Some? then a.will.value.qos else 0;
    var r := if a.will.Some? && a.will.value.retain then 1 else 0;
    var u := if a.user.Some? then 1 else 0;
    var p := if a.user.Some? && a.pass.Some? then 1 else 0;
    BitsOf(ConnectFlags(a), c, w, q, r, u, p);
  }

  lemma BitsOf(f: byte, c: nat, w: nat, q: nat, r: nat, u: nat, p: nat)
    requires c < 2 && w < 2 && q < 4 && r < 2 && u < 2 && p < 2
    requires f == 2 * c + 4 * w + 8 * q + 32 * r + 64 * p + 128 * u
    ensures f / 2 % 2 == c && f / 4 % 2 == w && f / 8 % 4 == q && f / 32 % 2 == r && f / 64 % 2 == p && f / 128 == u
  {
    var u2 := 2 * u + p;
    var u5 := 4 * u + 2 * p + r;
    DivModUnique(f, u, f - 128 * u, 128);
    DivModUnique(f, u2, f - 64 * u2, 64);
    DivModUnique(u2, u, p, 2);
    DivModUnique(f, u5, f - 32 * u5, 32);
    DivModUnique(u5, u2, r, 2);
    DivModUnique(f, 4 * u5 + q, f - 8 * (4 * u5 + q), 8);
    DivModUnique(4 * u5 + q, u5, q, 4);
    DivModUnique(f, 8 * u5 + 2 * q + w, 2 * c, 4);
    DivModUnique(8 * u5 + 2 * q + w, 4 * u5 + q, w, 2);
    DivModUnique(f, 16 * u5 + 4 * q + 2 * w + c, 0, 2);
    DivModUnique(16 * u5 + 4 * q + 2 * w + c, 8 * u5 + 2 * q + w, c, 2);
  }

  /** Flags and fields together say what was asked to be sent. */
  lemma {:induction false} ArgsRoundTrip(a: ConnectArgs)
    requires (a.will.Some? ==> a.will.value.qos < 4) && SmallStrings(Strings(a))
    ensures TakeFields(Fields(Strings(a))) == Some(Strings(a))
    ensures ReadArgs(ConnectFlags(a), Strings(a)) == Some(Sent(a))
  {
    hide ConnectFlags, HasWill, HasUser, HasPass, IsClean, Fields, TakeFields;
    FieldsRoundTrip(Strings(a));
    FlagsRoundTrip(a);
  }

  /** Protocol name and version, flags, keep-alive, and nothing but fields behind them. */
  function ReadConnectBody(b: seq<byte>): Option<(ConnectArgs, uint16)> {
    var name := TakeField(b);
    if name.None? || name.value.0 != Codes("MQTT") then None
    else
      var r := name.value.1;
      if |r| < 4 || r[0] != 4 || TakeFields(r[4..]).None? then None
      else
        var args := ReadArgs(r[1], TakeFields(r[4..]).value);
        if args.None? then None else Some((args.value, Word(r[2], r[3])))
  }

  lemma {:induction false} FieldsBound(ss: seq<seq<byte>>)
    requires SmallStrings(ss)
    ensures |Fields(ss)| <= |ss| * 0x1_0001
  {
    if ss != [] { FieldsBound(ss[..|ss| - 1]); }
  }

  lemma ConnectBodyRoundTrip(a: ConnectArgs, keepAlive: uint16)
    requires (a.will.Some? ==> a.will.value.qos < 4) && SmallStrings(Strings(a))
    ensures ReadConnectBody(ConnectHead(a, keepAlive) + Fields(Strings(a))) == Some((Sent(a), keepAlive))
  {
    hide ConnectFlags, Strings, Fields, TakeFields, TakeField, ReadArgs, WordBytes, Word, Codes;
    ArgsRoundTrip(a);
    WordRoundTrip(keepAlive);
    var w, f := WordBytes(keepAlive), Fields(Strings(a));
    var r := [4, ConnectFlags(a)] + w + f;
    NameField();
    TakeFieldRoundTrip(Codes("MQTT"), r);
    assert ConnectHead(a, keepAlive) + f == Field(Codes("MQTT")) + r;
    assert r[0] == 4 && r[1] == ConnectFlags(a) && r[2] == w[0] && r[3] == w[1] && r[4..] == f;
  }

  lemma NameField()
    ensures ProtocolName == Field(Codes("MQTT")) + [4] && |Codes("MQTT")| == 4
  {
    assert Codes("MQTT") == [77, 81, 84, 84];
    assert WordBytes(4) == [0, 4];
  }

  /** The body of a CONNECT packet is short enough for the packet to be read. */
  lemma ConnectBodySize(a: ConnectArgs, keepAlive: uint16)
    requires (a.will.Some? ==> a.will.value.qos < 4) && SmallStrings(Strings(a))
    ensures |ConnectHead(a, keepAlive) + Fields(Strings(a))| < 0x1000_0000
  {
    hide Strings, Fields, ConnectHead;
    FewStrings(a);
    FieldsBound(Strings(a));
    MulMono(0x1_0001, |Strings(a)|, 5);
  }

  lemma FewStrings(a: ConnectArgs)
    ensures |Strings(a)| <= 5
  {}

  lemma PacketSlices(h: seq<byte>, l: seq<byte>, body: seq<byte>)
    requires |h| == 1
    ensures var p := h + l + body;
      p[0] == h[0] && p[1..] == l + body && p[1 + |l|..] == body
  {}

  // ----- The size check of subscribe

  /** What `subscribe` puts behind the header gap. */
  function SubscribeBody(id: uint16, topic: seq<byte>, qos: byte): seq<byte>
    requires |topic| < 0x1_0000
  {
    WordBytes(id) + Field(topic) + [qos]
  }

  /**
   The size check counts nine bytes besides the topic, and ten are written: a topic that passes fits
   exactly when it leaves more than nine. `unsubscribe`, with the same check, writes nine.
   */
  lemma SubscribeFitsExactly(id: uint16, topic: seq<byte>, qos: byte, bufferSize: nat)
    requires 9 + |topic| <= bufferSize < 0x1_0000
    ensures MAX_HEADER_SIZE + |SubscribeBody(id, topic, qos)| <= bufferSize <==> 9 + |topic| != bufferSize
    ensures MAX_HEADER_SIZE + |WordBytes(id) + Field(topic)| <= bufferSize
  {}

  lemma LengthTurn(n: nat)
    ensures n / 128 == 0 ==> RemainingLength(n) == [n % 128]
    ensures n / 128 > 0 ==> RemainingLength(n) == [n % 128 + 128] + RemainingLength(n / 128)
    ensures n / 128 < n || n == 0
  {}
}
