/**
 The session of the MQTT client over whole runs: any sequence of calls, with any clock, any packets and a
 connection that may be lost at any time (MQTT 3.1.1, sections 2.3.1 and 3.1.2.10).
 */
module MqttSession {
  import opened Common
  import opened Arith

  // values of `state()`
  const CONNECTION_TIMEOUT: int := -4
  const CONNECTION_LOST: int := -3
  const CONNECT_FAILED: int := -2
  const DISCONNECTED: int := -1
  const CONNECTED: int := 0

  /** `up` is the connection below; `ping` says that a PINGREQ has not been answered. */
  datatype Session = Session(state: int, up: bool, ping: bool, nextMsgId: uint16, lastIn: uint32, lastOut: uint32)

  /** What matters of a call for the whole run. */
  datatype Act = PingSent | PongGot | Accepted | Refused | IdSent(id: uint16)

  /** The packet that `loop` finds, if it finds one. */
  datatype Got = Nothing | Ignored | Killed | Pong | Acknowledged | Other

  /**
   The reply that `connect` waits for: none in time, one that ends the connection, or a packet with its size
   (0 when it cannot be used) and its fourth byte.
   */
  datatype Reply = NoReply | KilledReply | Reply(size: nat, code: byte)

  datatype Call =
    | Lost
    | Connect(dialled: bool, fits: bool, sentAt: uint32, reply: Reply, repliedAt: uint32)
    | Loop(t: uint32, keepAlive: uint16, got: Got)
    | Send(fits: bool, t: uint32)
    | SendWithId(fits: bool, t: uint32)
    | Disconnect(t: uint32)
    | RawWrite(t: uint32)
    | AskConnected

  /** Unsigned 32-bit time since `last`. */
  function Elapsed(t: uint32, last: uint32): nat {
    (t - last) % 0x1_0000_0000
  }

  predicate Expired(s: Session, t: uint32, keepAlive: uint16) {
    Elapsed(t, s.lastIn) > keepAlive * 1000 || Elapsed(t, s.lastOut) > keepAlive * 1000
  }

  predicate IsConnected(s: Session) {
    s.up && s.state == CONNECTED
  }

  /** The side effect of `connected`: it notices a lost connection. */
  function Checked(s: Session): Session {
    if !s.up && s.state == CONNECTED then s.(state := CONNECTION_LOST) else s
  }

  /** The 16-bit successor, skipping 0. */
  function NextId(id: uint16): uint16 {
    if (id + 1) % 0x1_0000 == 0 then 1 else (id + 1) % 0x1_0000
  }

  function AfterConnect(s0: Session, dialled: bool, fits: bool, sentAt: uint32, reply: Reply, repliedAt: uint32): (Session, seq<Act>) {
    var s := Checked(s0);
    if IsConnected(s) then (s, [])
    else if !(s.up || dialled) then (s.(state := CONNECT_FAILED), [Refused])
    else if !fits then (s.(nextMsgId := 1, up := false), [Refused])
    else
      var sent := s.(nextMsgId := 1, up := true, lastIn := sentAt, lastOut := sentAt);
      match reply
      case NoReply => (sent.(state := CONNECTION_TIMEOUT, up := false), [Refused])
      case KilledReply => (sent.(state := DISCONNECTED, up := false), [Refused])
      case Reply(size, code) =>
        if size == 4 && code == 0 then (sent.(lastIn := repliedAt, ping := false, state := CONNECTED), [Accepted])
        else if size == 4 then (sent.(state := code, up := false), [Refused])
        else (sent.(up := false), [Refused])
  }

  /** The keep-alive check, on a session that is connected. */
  function AfterKeepAlive(s: Session, t: uint32, keepAlive: uint16): (Session, seq<Act>) {
    if !Expired(s, t, keepAlive) then (s, [])
    else if s.ping then (s.(state := CONNECTION_TIMEOUT, up := false), [])
    else (s.(lastOut := t, lastIn := t, ping := true), [PingSent])
  }

  function AfterGot(s: Session, t: uint32, got: Got): (Session, seq<Act>) {
    match got
    case Nothing => (s, [])
    case Ignored => (s, [])
    case Killed => (s.(state := DISCONNECTED, up := false), [])
    case Pong => (s.(lastIn := t, ping := false), [PongGot])
    case Acknowledged => (s.(lastIn := t, lastOut := t), [])
    case Other => (s.(lastIn := t), [])
  }

  function AfterLoop(s0: Session, t: uint32, keepAlive: uint16, got: Got): (Session, seq<Act>) {
    var s := Checked(s0);
    if !IsConnected(s) then (s, [])
    else
      var (k, acts) := AfterKeepAlive(s, t, keepAlive);
      if !k.up then (k, acts)
      else
        var (g, more) := AfterGot(k, t, got);
        (g, acts + more)
  }

  function AfterSend(s0: Session, fits: bool, t: uint32): Session {
    var s := Checked(s0);
    if IsConnected(s) && fits then s.(lastOut := t) else s
  }

  /** Subscribing and unsubscribing; their size check comes before everything else. */
  function AfterSendWithId(s0: Session, fits: bool, t: uint32): (Session, seq<Act>) {
    if !fits then (s0, [])
    else
      var s := Checked(s0);
      if !IsConnected(s) then (s, [])
      else
        var id := NextId(s.nextMsgId);
        (s.(nextMsgId := id, lastOut := t), [IdSent(id)])
  }

  function AfterDisconnect(s: Session, t: uint32): Session {
    s.(state := DISCONNECTED, up := false, lastIn := t, lastOut := t)
  }

  function After(s: Session, c: Call): (Session, seq<Act>) {
    match c
    case Lost => (s.(up := false), [])
    case Connect(dialled, fits, sentAt, reply, repliedAt) => AfterConnect(s, dialled, fits, sentAt, reply, repliedAt)
    case Loop(t, keepAlive, got) => AfterLoop(s, t, keepAlive, got)
    case Send(fits, t) => (AfterSend(s, fits, t), [])
    case SendWithId(fits, t) => AfterSendWithId(s, fits, t)
    case Disconnect(t) => (AfterDisconnect(s, t), [])
    case RawWrite(t) => (s.(lastOut := t), [])
    case AskConnected => (Checked(s), [])
  }

  // ----- What the log of a run tells

  /** A ping has been sent and not been answered since. */
  predicate PingPending(log: seq<Act>) {
    if log == [] then false
    else
      match log[|log| - 1]
      case PingSent => true
      case PongGot => false
      case Accepted => false
      case _ => PingPending(log[..|log| - 1])
  }

  /** The outcome of the last attempt to connect. */
  predicate LastAccepted(log: seq<Act>) {
    if log == [] then false
    else
      match log[|log| - 1]
      case Accepted => true
      case Refused => false
      case _ => LastAccepted(log[..|log| - 1])
  }

  /** The last identifier given out; every connection begins again from 1. */
  function LastId(log: seq<Act>): uint16 {
    if log == [] then 1
    else
      match log[|log| - 1]
      case IdSent(id) => id
      case Accepted => 1
      case _ => LastId(log[..|log| - 1])
  }

  /** No ping is sent while one is pending, and each identifier is the successor of the one before. */
  ghost predicate Orderly(log: seq<Act>) {
    forall j :: 0 <= j < |log| ==>
      && (log[j] == PingSent ==> !PingPending(log[..j]))
      && (log[j].IdSent? ==> log[j].id == NextId(LastId(log[..j])) && log[j].id != 0)
  }

  ghost predicate Inv(s: Session, log: seq<Act>) {
    && Orderly(log)
    && (s.state == CONNECTED ==>
         && LastAccepted(log) && s.ping == PingPending(log)
         && s.nextMsgId == LastId(log) && s.nextMsgId != 0)
  }

  /** A run: the session before and after each call, and the acts so far. */
  datatype Moment = Moment(s: Session, log: seq<Act>)

  ghost predicate IsRun(ms: seq<Moment>, calls: seq<Call>) {
    && |ms| == |calls| + 1
    && ms[0].s.state != CONNECTED && ms[0].log == []
    && forall i :: 0 <= i < |calls| ==> Follows(ms[i], calls[i], ms[i + 1])
  }

  ghost predicate Follows(m: Moment, c: Call, n: Moment) {
    var (s, acts) := After(m.s, c);
    n == Moment(s, m.log + acts)
  }

  lemma Snoc(log: seq<Act>, a: Act)
    ensures (log + [a])[..|log|] == log && (log + [a])[|log|] == a
    ensures PingPending(log + [a]) == (if a == PingSent then true else if a == PongGot || a == Accepted then false else PingPending(log))
    ensures LastAccepted(log + [a]) == (if a == Accepted then true else if a == Refused then false else LastAccepted(log))
    ensures LastId(log + [a]) == (if a.IdSent? then a.id else if a == Accepted then 1 else LastId(log))
  {
    assert (log + [a])[..|log|] == log;
  }

  lemma OrderlySnoc(log: seq<Act>, a: Act)
    requires Orderly(log)
    requires a == PingSent ==> !PingPending(log)
    requires a.IdSent? ==> a.id == NextId(LastId(log)) && a.id != 0
    ensures Orderly(log + [a])
  {
    var more := log + [a];
    forall j | 0 <= j < |more| ensures more[..j] == if j < |log| then log[..j] else log {}
  }

  lemma KeepAliveKeeps(s: Session, t: uint32, keepAlive: uint16, log: seq<Act>)
    requires Inv(s, log) && s.state == CONNECTED
    ensures var (k, acts) := AfterKeepAlive(s, t, keepAlive);
      && Inv(k, log + acts) && (k.up ==> k.state == CONNECTED || !s.up)
  {
    Snoc(log, PingSent);
    if Expired(s, t, keepAlive) && !s.ping { OrderlySnoc(log, PingSent); }
    assert log + [] == log;
  }

  lemma GotKeeps(s: Session, t: uint32, got: Got, log: seq<Act>)
    requires Inv(s, log)
    ensures var (g, acts) := AfterGot(s, t, got); Inv(g, log + acts)
  {
    Snoc(log, PongGot);
    OrderlySnoc(log, PongGot);
    assert log + [] == log;
  }

  lemma LoopKeeps(s0: Session, t: uint32, keepAlive: uint16, got: Got, log: seq<Act>)
    requires Inv(s0, log)
    ensures var (s, acts) := AfterLoop(s0, t, keepAlive, got); Inv(s, log + acts)
  {
    var s := Checked(s0);
    assert log + [] == log;
    if IsConnected(s) {
      KeepAliveKeeps(s, t, keepAlive, log);
      var (k, acts) := AfterKeepAlive(s, t, keepAlive);
      GotKeeps(k, t, got, log + acts);
      var (g, more) := AfterGot(k, t, got);
      hide Inv;
      Assoc(log, acts, more);
    }
  }

  /** Every call keeps the invariant. */
  lemma CallKeeps(s: Session, c: Call, log: seq<Act>)
    requires Inv(s, log)
    ensures var (t, acts) := After(s, c); Inv(t, log + acts)
  {
    assert log + [] == log;
    match c
    case Connect(dialled, fits, sentAt, reply, repliedAt) =>
      ConnectKeeps(s, dialled, fits, sentAt, reply, repliedAt, log);
    case Loop(t, keepAlive, got) => LoopKeeps(s, t, keepAlive, got, log);
    case SendWithId(fits, t) => SendWithIdKeeps(s, fits, t, log);
    case _ =>
  }

  lemma ConnectKeeps(s: Session, dialled: bool, fits: bool, sentAt: uint32, reply: Reply, repliedAt: uint32, log: seq<Act>)
    requires Inv(s, log)
    ensures var (t, acts) := AfterConnect(s, dialled, fits, sentAt, reply, repliedAt); Inv(t, log + acts)
  {
    hide PingPending, LastAccepted, LastId, Orderly;
    assert log + [] == log;
    Snoc(log, Accepted);
    OrderlySnoc(log, Accepted);
    OrderlySnoc(log, Refused);
  }

  lemma SendWithIdKeeps(s: Session, fits: bool, t: uint32, log: seq<Act>)
    requires Inv(s, log)
    ensures var (r, acts) := AfterSendWithId(s, fits, t); Inv(r, log + acts)
  {
    hide PingPending, LastAccepted, LastId, Orderly;
    assert log + [] == log;
    var id := NextId(s.nextMsgId);
    Snoc(log, IdSent(id));
    if fits && IsConnected(s) { OrderlySnoc(log, IdSent(id)); }
  }

  lemma {:induction false} EveryRunKeeps(ms: seq<Moment>, calls: seq<Call>, n: nat)
    requires IsRun(ms, calls) && n < |ms|
    ensures Inv(ms[n].s, ms[n].log)
  {
    if n > 0 {
      EveryRunKeeps(ms, calls, n - 1);
      assert Follows(ms[n - 1], calls[n - 1], ms[n - 1 + 1]);
      CallKeeps(ms[n - 1].s, calls[n - 1], ms[n - 1].log);
    }
  }

  // ----- The promises

  lemma {:induction false} PendingSince(log: seq<Act>, i: nat, j: nat)
    requires i < j <= |log| && log[i] == PingSent && !PingPending(log[..j])
    ensures exists k :: i < k < j && (log[k] == PongGot || log[k] == Accepted)
    decreases j
  {
    var s := log[..j];
    assert s[..j - 1] == log[..j - 1] && s[j - 1] == log[j - 1];
    if log[j - 1] == PongGot || log[j - 1] == Accepted {
      assert i < j - 1 < j;
    } else {
      PendingSince(log, i, j - 1);
      var k :| i < k < j - 1 && (log[k] == PongGot || log[k] == Accepted);
    }
  }

  /** Between two pings of a run there is an answer, or a new accepted connection. */
  lemma NoTwoPingsUnanswered(ms: seq<Moment>, calls: seq<Call>, n: nat, i: nat, j: nat)
    requires IsRun(ms, calls) && n < |ms| && i < j < |ms[n].log|
    requires ms[n].log[i] == PingSent && ms[n].log[j] == PingSent
    ensures exists k :: i < k < j && (ms[n].log[k] == PongGot || ms[n].log[k] == Accepted)
  {
    EveryRunKeeps(ms, calls, n);
    assert !PingPending(ms[n].log[..j]);
    PendingSince(ms[n].log, i, j);
  }

  lemma {:induction false} AcceptedSince(log: seq<Act>)
    requires LastAccepted(log)
    ensures exists k :: 0 <= k < |log| && log[k] == Accepted && Refused !in log[k..]
  {
    var n := |log| - 1;
    if log[n] == Accepted {
      assert log[n..] == [Accepted];
    } else {
      AcceptedSince(log[..n]);
      var k :| 0 <= k < n && log[..n][k] == Accepted && Refused !in log[..n][k..];
      assert log[k..] == log[..n][k..] + [log[n]];
    }
  }

  /** While `connected()` holds, the last attempt to connect was accepted, and the next identifier is not 0. */
  lemma ConnectedMeansAccepted(ms: seq<Moment>, calls: seq<Call>, n: nat)
    requires IsRun(ms, calls) && n < |ms| && IsConnected(ms[n].s)
    ensures exists k :: 0 <= k < |ms[n].log| && ms[n].log[k] == Accepted && Refused !in ms[n].log[k..]
    ensures ms[n].s.nextMsgId != 0
  {
    EveryRunKeeps(ms, calls, n);
    AcceptedSince(ms[n].log);
  }

  /** Identifiers that follow each other in one connection differ; none is 0. */
  lemma IdsDiffer(ms: seq<Moment>, calls: seq<Call>, n: nat, i: nat, j: nat)
    requires IsRun(ms, calls) && n < |ms| && i < j < |ms[n].log|
    requires ms[n].log[i].IdSent? && ms[n].log[j].IdSent?
    requires forall k :: i < k < j ==> !ms[n].log[k].IdSent? && ms[n].log[k] != Accepted
    ensures ms[n].log[i].id != 0 && ms[n].log[j].id != 0
    ensures ms[n].log[j].id == NextId(ms[n].log[i].id) != ms[n].log[i].id
  {
    EveryRunKeeps(ms, calls, n);
    var log := ms[n].log;
    assert log[i].id != 0 && log[j].id == NextId(LastId(log[..j]));
    LastIdStays(log, i, j);
  }

  lemma {:induction false} LastIdStays(log: seq<Act>, i: nat, j: nat)
    requires i < j <= |log| && log[i].IdSent?
    requires forall k :: i < k < j ==> !log[k].IdSent? && log[k] != Accepted
    ensures LastId(log[..j]) == log[i].id
    decreases j
  {
    assert log[..j][..j - 1] == log[..j - 1];
    if j - 1 > i { LastIdStays(log, i, j - 1); }
  }

  /**
   At every moment of every run, a `loop` on a connected session ends it in state -4, with the connection
   closed and nothing sent, exactly when a ping of the run has not been answered and the time has expired;
   and it sends a ping exactly when the time has expired and none is pending.
   */
  lemma {:induction false} UnansweredPingEnds(ms: seq<Moment>, calls: seq<Call>, n: nat)
    requires IsRun(ms, calls) && n < |calls| && calls[n].Loop? && IsConnected(ms[n].s)
    ensures var m, next, c := ms[n], ms[n + 1], calls[n];
      var expired, pending := Expired(m.s, c.t, c.keepAlive), PingPending(m.log);
      && (next.s.state == -4 <==> expired && pending)
      && (expired && pending ==> !next.s.up && next.log == m.log)
      && (|next.log| > |m.log| && next.log[|m.log|] == PingSent <==> expired && !pending)
  {
    hide Inv, PingPending, IsConnected, AfterLoop, Expired;
    EveryRunKeeps(ms, calls, n);
    PendingIsFlag(ms[n]);
    assert Follows(ms[n], calls[n], ms[n + 1]);
    var c := calls[n];
    LoopOutcome(ms[n].s, c.t, c.keepAlive, c.got);
  }

  lemma PendingIsFlag(m: Moment)
    requires Inv(m.s, m.log) && IsConnected(m.s)
    ensures m.s.ping == PingPending(m.log)
  {}

  lemma LoopOutcome(s: Session, t: uint32, keepAlive: uint16, got: Got)
    requires IsConnected(s)
    ensures var r := AfterLoop(s, t, keepAlive, got);
      && (r.0.state == CONNECTION_TIMEOUT <==> s.ping && Expired(s, t, keepAlive))
      && (s.ping && Expired(s, t, keepAlive) ==> !r.0.up && r.1 == [])
      && (r.1 != [] && r.1[0] == PingSent <==> !s.ping && Expired(s, t, keepAlive))
  {}

  /**
   The clock may wrap: with true times in milliseconds, of which the session keeps the low 32 bits, the
   time has expired exactly when more than `keepAlive` seconds have passed since a packet last came in, or
   since one last went out.
   */
  lemma ExpiresInRealTime(s: Session, now: nat, lastIn: nat, lastOut: nat, keepAlive: uint16)
    requires lastIn <= now < lastIn + 0x1_0000_0000 && lastOut <= now < lastOut + 0x1_0000_0000
    requires s.lastIn == lastIn % 0x1_0000_0000 && s.lastOut == lastOut % 0x1_0000_0000
    ensures Expired(s, now % 0x1_0000_0000, keepAlive) <==>
      now - lastIn > 1000 * keepAlive || now - lastOut > 1000 * keepAlive
  {
    ElapsedIsTrue(now, lastIn);
    ElapsedIsTrue(now, lastOut);
    hide Elapsed;
  }

  lemma {:induction false} ElapsedIsTrue(now: nat, last: nat)
    requires last <= now < last + 0x1_0000_0000
    ensures Elapsed(now % 0x1_0000_0000, last % 0x1_0000_0000) == now - last
  {
    var m := 0x1_0000_0000;
    var q, r, q', r' := now / m, now % m, last / m, last % m;
    assert now == m * q + r && last == m * q' + r';
    if r >= r' {
      DivModUnique(now - last, q - q', r - r', m);
      DivModUnique(now - last, 0, now - last, m);
      DivModUnique(r - r', 0, r - r', m);
    } else {
      DivModUnique(now - last, q - q' - 1, r - r' + m, m);
      DivModUnique(now - last, 0, now - last, m);
      DivModUnique(r - r', -1, r - r' + m, m);
    }
  }

  /**
   What comes in moves the clock of the session: any packet that can be used counts as activity, an answer to
   a ping settles it, and an acknowledgement counts as sent at that time.
   */
  lemma PacketsCount(s: Session, t: uint32, keepAlive: uint16, got: Got)
    requires IsConnected(s) && !Expired(s, t, keepAlive)
    ensures var r := AfterLoop(s, t, keepAlive, got).0;
      && (got.Killed? <==> !r.up) && (got.Killed? ==> r.state == -1)
      && r.lastIn == (if got.Pong? || got.Acknowledged? || got.Other? then t else s.lastIn)
      && r.lastOut == (if got.Acknowledged? then t else s.lastOut)
      && r.ping == (s.ping && !got.Pong?)
  {}

  /** A lost connection is noticed, as state -3, by whatever asks for it next, and only a new attempt changes that. */
  lemma LossIsNoticed(s: Session, c: Call)
    requires s.state == CONNECTED && !s.up
    requires c.AskConnected? || c.Loop? || c.Send? || (c.SendWithId? && c.fits)
    ensures After(s, c) == (s.(state := -3), [])
  {}

  /**
   An attempt to connect: nothing happens on a session that is connected; otherwise the state says how the
   attempt ended, and the session is connected exactly when a packet of four bytes ending with 0 came.
   */
  lemma AttemptOutcome(s: Session, dialled: bool, fits: bool, sentAt: uint32, reply: Reply, repliedAt: uint32)
    ensures IsConnected(s) ==> AfterConnect(s, dialled, fits, sentAt, reply, repliedAt) == (s, [])
    ensures !IsConnected(s) ==>
      var r := AfterConnect(s, dialled, fits, sentAt, reply, repliedAt).0;
      && (!s.up && !dialled ==> r.state == -2 && !r.up)
      && ((s.up || dialled) && !fits ==> !IsConnected(r) && !r.up)
      && ((s.up || dialled) && fits ==>
           && (reply.NoReply? ==> r.state == -4 && !r.up)
           && (reply.KilledReply? ==> r.state == -1 && !r.up)
           && (reply.Reply? && reply.size == 4 ==> r.state == reply.code && (r.up <==> reply.code == 0))
           && (reply.Reply? && reply.size != 4 ==> !IsConnected(r) && !r.up))
      && (IsConnected(r) ==> !r.ping && r.lastIn == repliedAt && r.lastOut == sentAt && NextId(r.nextMsgId) == 2)
  {}

  function Successor(id: uint16, k: nat): uint16 {
    if k == 0 then id else NextId(Successor(id, k - 1))
  }

  /** The identifiers run through all 65535 values before one comes again. */
  lemma {:induction false} IdsCycle(id: uint16, k: nat)
    requires id != 0
    ensures Successor(id, k) == (id - 1 + k) % 0xffff + 1
    ensures 0 < k < 0xffff ==> Successor(id, k) != id
    ensures k == 0xffff ==> Successor(id, k) == id
  {
    hide Successor, NextId;
    SuccessorOnce(id, k);
    if k == 0 {
      SmallMod(id - 1);
    } else {
      IdsCycle(id, k - 1);
      NextMod(id - 1 + (k - 1), 0xffff);
      NextIdCycles(id - 1 + (k - 1));
    }
    SmallMod(id - 1 + k);
  }

  lemma SuccessorOnce(id: uint16, k: nat)
    ensures Successor(id, k) == if k == 0 then id else NextId(Successor(id, k - 1))
  {}

  lemma SmallMod(r: nat)
    ensures r < 0xffff ==> r % 0xffff == r
    ensures 0xffff <= r < 2 * 0xffff ==> r % 0xffff == r - 0xffff
  {
    if r < 0xffff { DivModUnique(r, 0, r, 0xffff); } else if r < 2 * 0xffff { DivModUnique(r, 1, r - 0xffff, 0xffff); }
  }

  lemma NextIdCycles(x: nat)
    ensures NextId(x % 0xffff + 1) == (if x % 0xffff == 0xfffe then 0 else x % 0xffff + 1) + 1
  {}

  lemma {:induction false} NextMod(x: nat, d: nat)
    requires d > 1
    ensures (x + 1) % d == if x % d == d - 1 then 0 else x % d + 1
  {
    if x % d == d - 1 {
      assert x + 1 == d * (x / d + 1);
      DivModUnique(x + 1, x / d + 1, 0, d);
    } else {
      DivModUnique(x + 1, x / d, x % d + 1, d);
    }
  }
}
