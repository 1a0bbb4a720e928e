/**
 The single-producer single-consumer queue of the DMA pool: the object as one thread sees it,
 and the protocol in which the two threads' loads, stores and slot accesses interleave under release and
 acquire order.
 */
module SpscQueue {
  import opened Common
  import opened Arith

  // ----- Ring arithmetic

  /** Slots of two positions less than a whole turn apart are different. */
  lemma {:induction false} SlotsDiffer(a: nat, b: nat, cap: nat)
    requires 0 < cap && a < b < a + cap
    ensures a % cap != b % cap
  {
    if a % cap == b % cap {
      var r := a % cap;
      assert b == cap * (b / cap) + r && a == cap * (a / cap) + r;
      DivModUnique(b - a, b / cap - a / cap, 0, cap);
      DivModUnique(b - a, 0, b - a, cap);
    }
  }

  /** Moving the wrapped index one step is wrapping the index of the next position. */
  lemma {:induction false} NextSlot(a: nat, cap: nat)
    requires 0 < cap
    ensures (a % cap + 1) % cap == (a + 1) % cap
  {
    var q, r := a / cap, a % cap;
    assert a + 1 == cap * q + (r + 1);
    if r + 1 < cap {
      DivModUnique(a + 1, q, r + 1, cap);
      DivModUnique(r + 1, 0, r + 1, cap);
    } else {
      assert a + 1 == cap * (q + 1) + 0;
      DivModUnique(a + 1, q + 1, 0, cap);
      DivModUnique(cap, 1, 0, cap);
    }
  }

  // ----- The protocol between two threads

  /** Where the producer is inside `push`; `curr` and `next` are its local copies. */
  datatype Producer<T> =
    | Idle
    | LoadedHead(data: T, curr: nat)
    | NotFull(data: T, curr: nat, next: nat)
    | Written(data: T, next: nat)

  /** Where the consumer is inside `pop`. */
  datatype Consumer<T> =
    | Idle
    | LoadedTail(peek: bool, curr: nat)
    | NotEmpty(peek: bool, curr: nat)
    | HasData(peek: bool, curr: nat, data: T)

  /** A release store to an index: its value, and how many slot accesses of its thread precede it. */
  datatype Store = Store(value: nat, before: nat)

  datatype Write<T> = Write(slot: nat, value: T)

  /** A read of a slot, with the number of items popped before it. */
  datatype Read = Read(slot: nat, item: nat)

  /**
   The two threads under release and acquire order. Only the producer stores to `head` and writes slots,
   only the consumer stores to `tail` and reads them; each of these is a history. `seenHead` is the
   newest store to `head` that the consumer has loaded, `seenTail` the newest to `tail` that the
   producer has. The items whose push returned true, and those handed out by a consuming pop, are kept.
   */
  datatype State<T> = State(
    cap: nat, heads: seq<Store>, tails: seq<Store>, written: seq<Write<T>>, fetched: seq<Read>,
    seenHead: nat, seenTail: nat,
    producer: Producer<T>, consumer: Consumer<T>,
    pushed: seq<T>, popped: seq<T>)

  ghost predicate Init<T>(s: State<T>) {
    && s.cap >= 2
    && s.heads == [Store(0, 0)] && s.tails == [Store(0, 0)] && s.written == [] && s.fetched == []
    && s.seenHead == s.seenTail == 0
    && s.producer == Producer.Idle && s.consumer == Consumer.Idle
    && s.pushed == [] && s.popped == []
  }

  /**
   One action of either thread. A load of the other thread's index returns the n-th store to it; a read
   of a slot returns `data`.
   */
  datatype Action<T> =
    | PushLoadHead(data: T)
    | PushLoadTail(n: nat)
    | PushWriteSlot
    | PushStoreHead
    | PopLoadTail(peek: bool)
    | PopLoadHead(n: nat)
    | PopReadSlot(data: T)
    | PopFinish

  /** The histories have the parts that the actions look at. */
  predicate WellFormed<T>(s: State<T>) {
    s.cap > 0 && s.seenHead < |s.heads| && s.seenTail < |s.tails|
  }

  /** The writes that happen before whatever the consumer does next, and the reads that do for the producer. */
  function KnownWrites<T>(s: State<T>): nat
    requires WellFormed(s)
  {
    s.heads[s.seenHead].before
  }

  function KnownReads<T>(s: State<T>): nat
    requires WellFormed(s)
  {
    s.tails[s.seenTail].before
  }

  /**
   What a read of a slot may return: any write to it that is not overwritten by one that happens before
   the read; and anything at all when no write to it happens before.
   */
  ghost predicate MayRead<T>(s: State<T>, slot: nat, data: T)
    requires WellFormed(s)
  {
    || (forall w :: 0 <= w < |s.written| && w < KnownWrites(s) ==> s.written[w].slot != slot)
    || exists w :: 0 <= w < |s.written| && IsSource(s, slot, w) && s.written[w].value == data
  }

  ghost predicate IsSource<T>(s: State<T>, slot: nat, w: nat)
    requires WellFormed(s) && w < |s.written|
  {
    && s.written[w].slot == slot
    && forall later :: w < later < |s.written| && later < KnownWrites(s) ==> s.written[later].slot != slot
  }

  ghost predicate Step<T(!new)>(s: State<T>, a: Action<T>, t: State<T>)
    requires WellFormed(s)
  {
    match a
    case PushLoadHead(data) =>
      s.producer.Idle? && t == s.(producer := LoadedHead(data, s.heads[|s.heads| - 1].value))
    case PushLoadTail(n) =>
      // any store that is not older than the last one seen
      s.producer.LoadedHead? && s.seenTail <= n < |s.tails| &&
      var curr := s.producer.curr;
      var next := (curr + 1) % s.cap;
      t == s.(seenTail := n, producer := if next == s.tails[n].value then Producer.Idle
                                         else NotFull(s.producer.data, curr, next))
    case PushWriteSlot =>
      s.producer.NotFull? &&
      t == s.(written := s.written + [Write(s.producer.curr, s.producer.data)],
              producer := Written(s.producer.data, s.producer.next))
    case PushStoreHead =>
      s.producer.Written? &&
      t == s.(heads := s.heads + [Store(s.producer.next, |s.written|)],
              producer := Producer.Idle, pushed := s.pushed + [s.producer.data])
    case PopLoadTail(peek) =>
      s.consumer.Idle? && t == s.(consumer := LoadedTail(peek, s.tails[|s.tails| - 1].value))
    case PopLoadHead(n) =>
      s.consumer.LoadedTail? && s.seenHead <= n < |s.heads| &&
      t == s.(seenHead := n, consumer := if s.consumer.curr == s.heads[n].value then Consumer.Idle
                                         else NotEmpty(s.consumer.peek, s.consumer.curr))
    case PopReadSlot(data) =>
      s.consumer.NotEmpty? && MayRead(s, s.consumer.curr, data) &&
      t == s.(fetched := s.fetched + [Read(s.consumer.curr, |s.popped|)],
              consumer := HasData(s.consumer.peek, s.consumer.curr, data))
    case PopFinish =>
      s.consumer.HasData? &&
      t == if s.consumer.peek then s.(consumer := Consumer.Idle)
           else s.(consumer := Consumer.Idle, popped := s.popped + [s.consumer.data],
                   tails := s.tails + [Store((s.consumer.curr + 1) % s.cap, |s.fetched|)])
  }

  // ----- The invariant

  ghost predicate Inv<T>(s: State<T>) {
    && s.cap >= 2 && |s.heads| == |s.pushed| + 1 && |s.tails| == |s.popped| + 1
    && s.seenTail <= |s.popped| <= s.seenHead <= |s.pushed| < s.seenTail + s.cap
    && s.popped == s.pushed[..|s.popped|]
    && HeadsInv(s) && TailsInv(s) && WritesInv(s) && ReadsInv(s)
    && ProducerInv(s) && ConsumerInv(s)
  }

  /** The n-th store to `head` is behind exactly n writes. */
  ghost predicate HeadsInv<T>(s: State<T>)
    requires s.cap > 0
  {
    forall n :: 0 <= n < |s.heads| ==> s.heads[n] == Store(n % s.cap, n)
  }

  ghost predicate TailsInv<T>(s: State<T>)
    requires s.cap > 0
  {
    forall n :: 0 <= n < |s.tails| ==> s.tails[n].value == n % s.cap && s.tails[n].before <= |s.fetched|
  }

  /** The k-th write is the k-th item in its slot; the last one may not have been stored to `head` yet. */
  ghost predicate WritesInv<T>(s: State<T>)
    requires s.cap > 0
  {
    && |s.written| == |s.pushed| + (if s.producer.Written? then 1 else 0)
    && (forall k :: 0 <= k < |s.written| ==> s.written[k].slot == k % s.cap)
    && (forall k :: 0 <= k < |s.pushed| ==> s.written[k].value == s.pushed[k])
  }

  /** Reads are of items seen, in their slots; those not before the n-th store to `tail` are not of the first n. */
  ghost predicate ReadsInv<T>(s: State<T>)
    requires s.cap > 0
  {
    && (forall r :: 0 <= r < |s.fetched| ==> s.fetched[r].slot == s.fetched[r].item % s.cap && s.fetched[r].item < s.seenHead)
    && (forall r, n :: 0 <= n < |s.tails| && s.tails[n].before <= r < |s.fetched| ==> n <= s.fetched[r].item)
  }

  ghost predicate ProducerInv<T>(s: State<T>)
    requires s.cap >= 2
  {
    var head := |s.pushed| % s.cap;
    match s.producer
    case Idle => true
    case LoadedHead(_, curr) => curr == head
    case NotFull(_, curr, next) => curr == head && next == (head + 1) % s.cap && |s.pushed| + 1 < s.seenTail + s.cap
    case Written(data, next) =>
      && next == (head + 1) % s.cap && |s.pushed| + 1 < s.seenTail + s.cap
      && |s.written| > |s.pushed| && s.written[|s.pushed|].value == data
  }

  ghost predicate ConsumerInv<T>(s: State<T>)
    requires s.cap >= 2
  {
    var tail := |s.popped| % s.cap;
    match s.consumer
    case Idle => true
    case LoadedTail(_, curr) => curr == tail
    case NotEmpty(_, curr) => curr == tail && |s.popped| < s.seenHead
    case HasData(_, curr, data) =>
      curr == tail && |s.popped| < s.seenHead && |s.popped| < |s.pushed| && data == s.pushed[|s.popped|]
  }

  /** The two tests compare positions less than a turn apart, so they are exact on wrapped indices. */
  lemma {:induction false} WrappedTests(low: nat, high: nat, cap: nat)
    requires cap >= 2 && low <= high < low + cap
    ensures (high % cap + 1) % cap == low % cap <==> high - low == cap - 1
    ensures low % cap == high % cap <==> low == high
  {
    NextSlot(high, cap);
    if high - low == cap - 1 {
      DivModUnique(low + cap, low / cap + 1, low % cap, cap);
    } else {
      SlotsDiffer(low, high + 1, cap);
    }
    if low < high { SlotsDiffer(low, high, cap); }
  }

  /** With whatever values they load, the full test and the empty test are right about the stores they have seen. */
  lemma {:induction false} TestsAreExact<T>(s: State<T>, n: nat)
    requires Inv(s)
    ensures s.producer.LoadedHead? && s.seenTail <= n <= |s.popped| ==>
      ((s.producer.curr + 1) % s.cap == s.tails[n].value <==> |s.pushed| - n == s.cap - 1)
    ensures s.consumer.LoadedTail? && s.seenHead <= n <= |s.pushed| ==>
      (s.consumer.curr == s.heads[n].value <==> n == |s.popped|)
  {
    if s.producer.LoadedHead? && s.seenTail <= n <= |s.popped| { WrappedTests(n, |s.pushed|, s.cap); }
    if s.consumer.LoadedTail? && s.seenHead <= n <= |s.pushed| { WrappedTests(|s.popped|, n, s.cap); }
  }

  /** No read that the producer does not know of touches the slot it is about to write. */
  ghost predicate WriteIsOrdered<T>(s: State<T>)
    requires WellFormed(s)
  {
    s.producer.NotFull? ==> forall r :: KnownReads(s) <= r < |s.fetched| ==> s.fetched[r].slot != s.producer.curr
  }

  /** No write that the consumer does not know of touches the slot it is about to read. */
  ghost predicate ReadIsOrdered<T>(s: State<T>)
    requires WellFormed(s)
  {
    s.consumer.NotEmpty? ==> forall w :: KnownWrites(s) <= w < |s.written| ==> s.written[w].slot != s.consumer.curr
  }

  lemma {:induction false} InvOrders<T>(s: State<T>)
    requires Inv(s)
    ensures WriteIsOrdered(s) && ReadIsOrdered(s)
  {
    if s.producer.NotFull? {
      forall r | KnownReads(s) <= r < |s.fetched| ensures s.fetched[r].slot != s.producer.curr {
        SlotsDiffer(s.fetched[r].item, |s.pushed|, s.cap);
      }
    }
    if s.consumer.NotEmpty? {
      forall w | KnownWrites(s) <= w < |s.written| ensures s.written[w].slot != s.consumer.curr {
        SlotsDiffer(|s.popped|, w, s.cap);
      }
    }
  }

  /** A slot is read with the one value it can have, the oldest item. */
  lemma {:induction false} ReadsOldest<T>(s: State<T>, data: T)
    requires Inv(s) && s.consumer.NotEmpty? && MayRead(s, s.consumer.curr, data)
    ensures data == s.pushed[|s.popped|]
  {
    var p := |s.popped|;
    assert s.written[p].slot == s.consumer.curr && p < KnownWrites(s);
    var w :| 0 <= w < |s.written| && IsSource(s, s.consumer.curr, w) && s.written[w].value == data;
    if w > p { SlotsDiffer(p, w, s.cap); }
  }

  lemma {:induction false} InvPushLoads<T(!new)>(s: State<T>, a: Action<T>, t: State<T>)
    requires Inv(s) && Step(s, a, t) && (a.PushLoadHead? || a.PushLoadTail?)
    ensures Inv(t)
  {
    if a.PushLoadTail? { TestsAreExact(s, a.n); }
  }

  lemma {:induction false} InvPushWrite<T(!new)>(s: State<T>, a: Action<T>, t: State<T>)
    requires Inv(s) && Step(s, a, t) && a.PushWriteSlot?
    ensures Inv(t)
  {
    hide MayRead, IsSource, TailsInv, HeadsInv, ReadsInv;
    SameReads(s, t);
  }

  lemma {:induction false} InvPushStore<T(!new)>(s: State<T>, a: Action<T>, t: State<T>)
    requires Inv(s) && Step(s, a, t) && a.PushStoreHead?
    ensures Inv(t)
  {
    hide MayRead, IsSource, TailsInv, ReadsInv;
    SameReads(s, t);
    NextSlot(|s.pushed|, s.cap);
  }

  lemma SameReads<T>(s: State<T>, t: State<T>)
    requires s.cap == t.cap > 0 && s.tails == t.tails && s.fetched == t.fetched && s.seenHead == t.seenHead
    ensures TailsInv(s) <==> TailsInv(t)
    ensures ReadsInv(s) <==> ReadsInv(t)
    ensures s.heads == t.heads ==> (HeadsInv(s) <==> HeadsInv(t))
  {}

  lemma {:induction false} InvPopLoads<T(!new)>(s: State<T>, a: Action<T>, t: State<T>)
    requires Inv(s) && Step(s, a, t) && (a.PopLoadTail? || a.PopLoadHead?)
    ensures Inv(t)
  {
    if a.PopLoadHead? { TestsAreExact(s, a.n); }
  }

  lemma {:induction false} InvPopRead<T(!new)>(s: State<T>, a: Action<T>, t: State<T>)
    requires Inv(s) && Step(s, a, t) && a.PopReadSlot?
    ensures Inv(t)
  {
    hide MayRead;
    ReadsOldest(s, a.data);
  }

  lemma {:induction false} InvPopFinish<T(!new)>(s: State<T>, a: Action<T>, t: State<T>)
    requires Inv(s) && Step(s, a, t) && a.PopFinish?
    ensures Inv(t)
  {
    hide MayRead, IsSource;
    NextSlot(|s.popped|, s.cap);
  }

  lemma {:induction false} InvStep<T(!new)>(s: State<T>, a: Action<T>, t: State<T>)
    requires Inv(s) && Step(s, a, t)
    ensures Inv(t)
  {
    hide Inv, Step;
    if a.PushLoadHead? || a.PushLoadTail? { InvPushLoads(s, a, t); }
    if a.PushWriteSlot? { InvPushWrite(s, a, t); }
    if a.PushStoreHead? { InvPushStore(s, a, t); }
    if a.PopLoadTail? || a.PopLoadHead? { InvPopLoads(s, a, t); }
    if a.PopReadSlot? { InvPopRead(s, a, t); }
    if a.PopFinish? { InvPopFinish(s, a, t); }
  }

  // ----- Safety over every interleaving

  /** FIFO, bounded occupancy, and no data race: every slot access is ordered with all the others to that slot. */
  ghost predicate Safe<T>(s: State<T>) {
    && s.popped <= s.pushed
    && |s.pushed| - |s.popped| <= s.cap - 1
    && WellFormed(s) && WriteIsOrdered(s) && ReadIsOrdered(s)
    && (s.producer.NotFull? ==> s.producer.curr < s.cap)
    && (s.consumer.NotEmpty? ==> s.consumer.curr < s.cap)
  }

  lemma {:induction false} InvIsSafe<T>(s: State<T>)
    requires Inv(s)
    ensures Safe(s)
  {
    InvOrders(s);
  }

  /** A run: any interleaving of the two threads' actions, with any loads, from the empty queue. */
  ghost predicate IsRun<T(!new)>(states: seq<State<T>>, actions: seq<Action<T>>) {
    && |states| == |actions| + 1
    && Init(states[0])
    && forall i :: 0 <= i < |actions| ==> WellFormed(states[i]) && Step(states[i], actions[i], states[i + 1])
  }

  lemma InitInv<T>(s: State<T>)
    requires Init(s)
    ensures Inv(s)
  {}

  lemma {:induction false} RunInv<T(!new)>(states: seq<State<T>>, actions: seq<Action<T>>, n: nat)
    requires IsRun(states, actions) && n < |states|
    ensures Inv(states[n])
  {
    hide Inv, Init, Step;
    if n == 0 {
      InitInv(states[0]);
    } else {
      RunInv(states, actions, n - 1);
      assert Step(states[n - 1], actions[n - 1], states[n - 1 + 1]);
      InvStep(states[n - 1], actions[n - 1], states[n]);
    }
  }

  /** In every interleaving, every state is safe. */
  lemma EveryRunIsSafe<T(!new)>(states: seq<State<T>>, actions: seq<Action<T>>)
    requires IsRun(states, actions)
    ensures forall n :: 0 <= n < |states| ==> Safe(states[n])
  {
    forall n | 0 <= n < |states| ensures Safe(states[n]) {
      RunInv(states, actions, n);
      InvIsSafe(states[n]);
    }
  }

  // ----- Refinement of an atomic bounded queue

  /** The abstract queue: what has been pushed and not yet popped. */
  ghost function Queue<T>(s: State<T>): (q: seq<T>)
    requires |s.popped| <= |s.pushed|
  {
    s.pushed[|s.popped|..]
  }

  /** What a step does to an atomic FIFO queue of `cap - 1` places. */
  ghost predicate AtomicStep<T>(a: Action<T>, q: seq<T>, q': seq<T>, s: State<T>) {
    if a.PushStoreHead? && s.producer.Written? then |q| < s.cap - 1 && q' == q + [s.producer.data]
    else if a.PopFinish? && s.consumer.HasData? then
      q != [] && s.consumer.data == q[0] && q' == if s.consumer.peek then q else q[1..]
    else q' == q
  }

  /** What a load tells `push`: it fails exactly when the queue would be full with only the pops it has seen. */
  ghost predicate PushLoadTells<T>(s: State<T>, a: Action<T>, t: State<T>) {
    a.PushLoadTail? ==>
      && (t.producer.Idle? <==> |s.pushed| - t.seenTail == s.cap - 1)
      && (|s.pushed| - |s.popped| == s.cap - 1 ==> t.producer.Idle?)
      && (a.n + 1 == |s.tails| ==> (t.producer.Idle? <==> |s.pushed| - |s.popped| == s.cap - 1))
  }

  ghost predicate PopLoadTells<T>(s: State<T>, a: Action<T>, t: State<T>) {
    a.PopLoadHead? ==>
      && (t.consumer.Idle? <==> t.seenHead == |s.popped|)
      && (|s.pushed| == |s.popped| ==> t.consumer.Idle?)
      && (a.n + 1 == |s.heads| ==> (t.consumer.Idle? <==> |s.pushed| == |s.popped|))
  }

  /**
   Every reachable step is a step of the atomic queue, and a slot is read with the oldest item. `push`
   fails on a full queue, and on no other if it loads the newest store; `pop` likewise on an empty one.
   */
  lemma StepRefinesAtomicQueue<T(!new)>(states: seq<State<T>>, actions: seq<Action<T>>, i: nat)
    requires IsRun(states, actions) && i < |actions|
    ensures var s, t, a := states[i], states[i + 1], actions[i];
      && |s.popped| <= |s.pushed| && |t.popped| <= |t.pushed|
      && AtomicStep(a, Queue(s), Queue(t), s)
      && (a.PopReadSlot? ==> Queue(s) != [] && a.data == Queue(s)[0])
      && PushLoadTells(s, a, t) && PopLoadTells(s, a, t)
  {
    hide Inv, Step, AtomicStep, PushLoadTells, PopLoadTells;
    RunInv(states, actions, i);
    RunInv(states, actions, i + 1);
    assert Step(states[i], actions[i], states[i + 1]);
    LoadsTell(states[i], actions[i], states[i + 1]);
    QueueSteps(states[i], actions[i], states[i + 1]);
  }

  lemma {:induction false} LoadsTell<T(!new)>(s: State<T>, a: Action<T>, t: State<T>)
    requires Inv(s) && Step(s, a, t)
    ensures PushLoadTells(s, a, t) && PopLoadTells(s, a, t)
  {
    hide MayRead, IsSource, WritesInv, ReadsInv;
    if a.PushLoadTail? { TestsAreExact(s, a.n); }
    if a.PopLoadHead? { TestsAreExact(s, a.n); }
  }

  lemma {:induction false} QueueSteps<T(!new)>(s: State<T>, a: Action<T>, t: State<T>)
    requires Inv(s) && Step(s, a, t) && Inv(t)
    ensures |s.popped| <= |s.pushed| && |t.popped| <= |t.pushed| && AtomicStep(a, Queue(s), Queue(t), s)
    ensures a.PopReadSlot? ==> Queue(s) != [] && a.data == Queue(s)[0]
  {
    hide MayRead, IsSource, HeadsInv, TailsInv, WritesInv, ReadsInv;
    if a.PopReadSlot? { ReadsOldest(s, a.data); }
  }

  ghost predicate Reached<T(!new)>(s: State<T>) {
    exists states: seq<State<T>>, actions: seq<Action<T>> :: IsRun(states, actions) && states[|actions|] == s
  }

  lemma ReachNext<T(!new)>(s: State<T>, a: Action<T>, t: State<T>)
    requires Reached(s) && WellFormed(s) && Step(s, a, t)
    ensures Reached(t)
  {
    hide Init, Step;
    var states, actions :| IsRun(states, actions) && states[|actions|] == s;
    var more, done := states + [t], actions + [a];
    forall i | 0 <= i < |done| ensures WellFormed(more[i]) && Step(more[i], done[i], more[i + 1]) {
      if i < |actions| { assert Step(states[i], actions[i], states[i + 1]); }
    }
    assert IsRun(more, done);
  }

  lemma ReachInit<T(!new)>(s: State<T>)
    requires Init(s)
    ensures Reached(s)
  {
    assert IsRun([s], []);
  }

  /**
   A stale load can make `push` fail on an empty queue: one item is pushed into a queue of one place and
   popped, and the next push loads the first store to `tail` again.
   */
  lemma StaleLoadFails(x: nat)
    ensures exists s: State<nat>, t: State<nat> ::
      && Reached(s) && WellFormed(s) && Step(s, PushLoadTail(0), t)
      && t.producer.Idle? && |s.popped| == |s.pushed| && s.cap >= 2
  {
    hide Reached;
    var s := PushedOne(x);
    var t := PoppedOne(x, s);
    var u := t.(producer := LoadedHead(x, 1));
    ReachNext(t, PushLoadHead(x), u);
    assert Step(u, PushLoadTail(0), u.(producer := Producer.Idle));
  }

  /** A queue of one place that holds x. */
  ghost function Holding(x: nat): State<nat> {
    State(2, [Store(0, 0), Store(1, 1)], [Store(0, 0)], [Write(0, x)], [], 0, 0, Producer.Idle, Consumer.Idle, [x], [])
  }

  lemma PushedOne(x: nat) returns (s: State<nat>)
    ensures s == Holding(x) && Reached(s)
  {
    hide Reached;
    var s0 := State<nat>.State(2, [Store(0, 0)], [Store(0, 0)], [], [], 0, 0, Producer.Idle, Consumer.Idle, [], []);
    ReachInit(s0);
    var s1 := s0.(producer := LoadedHead(x, 0));
    ReachNext(s0, PushLoadHead(x), s1);
    var s2 := s1.(producer := NotFull(x, 0, 1));
    ReachNext(s1, PushLoadTail(0), s2);
    var s3 := s2.(producer := Written(x, 1), written := [Write(0, x)]);
    ReachNext(s2, PushWriteSlot, s3);
    s := s3.(producer := Producer.Idle, heads := [Store(0, 0), Store(1, 1)], pushed := [x]);
    ReachNext(s3, PushStoreHead, s);
  }

  lemma PoppedOne(x: nat, s: State<nat>) returns (t: State<nat>)
    requires s == Holding(x) && Reached(s)
    ensures Reached(t) && t == s.(seenHead := 1, fetched := [Read(0, 0)], popped := [x], tails := [Store(0, 0), Store(1, 1)])
  {
    hide Reached;
    var s5 := s.(consumer := LoadedTail(false, 0));
    ReachNext(s, PopLoadTail(false), s5);
    var s6 := s5.(consumer := NotEmpty(false, 0), seenHead := 1);
    ReachNext(s5, PopLoadHead(1), s6);
    var s7 := s6.(consumer := HasData(false, 0, x), fetched := [Read(0, 0)]);
    assert s6.written[0].slot == 0 && IsSource(s6, 0, 0);
    ReachNext(s6, PopReadSlot(x), s7);
    t := s7.(consumer := Consumer.Idle, popped := [x], tails := [Store(0, 0), Store(1, 1)]);
    ReachNext(s7, PopFinish, t);
  }

  // ----- The object, used by one thread at a time

  /** The slot of the i-th stored item. */
  function Slot(tail: nat, i: nat, cap: nat): (r: nat)
    requires cap > 0
    ensures r < cap
  {
    (tail + i) % cap
  }

  /** Slots of `b` from `tail` on hold the items of `c`, oldest first. */
  ghost predicate Holds<T>(b: seq<T>, tail: nat, c: seq<T>) {
    |b| > 0 && forall i :: 0 <= i < |c| ==> b[Slot(tail, i, |b|)] == c[i]
  }

  lemma {:induction false} DropOldest<T>(b: seq<T>, tail: nat, c: seq<T>)
    requires Holds(b, tail, c) && c != []
    ensures Holds(b, Slot(tail, 1, |b|), c[1..])
    ensures Slot(Slot(tail, 1, |b|), |c| - 1, |b|) == Slot(tail, |c|, |b|)
  {
    forall i: nat ensures Slot(Slot(tail, 1, |b|), i, |b|) == Slot(tail, i + 1, |b|) {
      ShiftTail(tail, i, |b|);
    }
  }

  lemma {:induction false} AddNewest<T>(b: seq<T>, tail: nat, c: seq<T>, x: T)
    requires Holds(b, tail, c) && |c| < |b|
    ensures Holds(b[Slot(tail, |c|, |b|) := x], tail, c + [x])
    ensures (Slot(tail, |c|, |b|) + 1) % |b| == Slot(tail, |c| + 1, |b|)
  {
    hide Slot;
    forall i | 0 <= i < |c| ensures Slot(tail, i, |b|) != Slot(tail, |c|, |b|) {
      SlotsApart(tail, i, |c|, |b|);
    }
    SlotNext(tail, |c|, |b|);
  }

  lemma {:induction false} SlotsApart(tail: nat, i: nat, n: nat, cap: nat)
    requires i < n < cap
    ensures Slot(tail, i, cap) != Slot(tail, n, cap)
  {
    SlotsDiffer(tail + i, tail + n, cap);
  }

  lemma SlotNext(tail: nat, n: nat, cap: nat)
    requires 0 < cap
    ensures (Slot(tail, n, cap) + 1) % cap == Slot(tail, n + 1, cap)
  {
    NextSlot(tail + n, cap);
  }

  /** `SPSCQueue`: a ring of `size + 1` slots, one of which stays free. A queue of size 0 has no slots. */
  class SPSCQueue<T(0)> {
    const capacity: nat
    var head: nat
    var tail: nat
    const buff: array<T>
    ghost var Contents: seq<T>

    ghost predicate Valid()
      reads this, buff
    {
      && buff.Length == capacity
      && (capacity == 0 ==> head == tail == 0 && Contents == [])
      && (capacity > 0 ==>
        && |Contents| < capacity && tail < capacity
        && head == Slot(tail, |Contents|, capacity)
        && Holds(buff[..], tail, Contents))
    }

    constructor (size: nat)
      ensures Valid() && fresh(buff) && Contents == []
      ensures capacity == if size == 0 then 0 else size + 1
    {
      head, tail, Contents := 0, 0, [];
      capacity := if size == 0 then 0 else size + 1;
      buff := new T[if size == 0 then 0 else size + 1];
    }

    method Empty() returns (e: bool)
      requires Valid()
      ensures e <==> Contents == []
    {
      if capacity > 0 && |Contents| > 0 {
        SlotsDiffer(tail, tail + |Contents|, capacity);
        DivModUnique(tail, 0, tail, capacity);
      } else if capacity > 0 {
        DivModUnique(tail, 0, tail, capacity);
      }
      e := tail == head;
    }

    /** Appends unless the queue holds `capacity - 1` items. The source divides by `capacity`. */
    method Push(data: T) returns (ok: bool)
      requires Valid() && capacity > 0
      modifies `head, `Contents, buff
      ensures Valid()
      ensures ok <==> |old(Contents)| + 1 < capacity
      ensures Contents == if ok then old(Contents) + [data] else old(Contents)
    {
      var curr := head;
      var next := (curr + 1) % capacity;
      AddNewest(buff[..], tail, Contents, data);
      DivModUnique(tail, 0, tail, capacity);
      if |Contents| + 1 < capacity {
        SlotsDiffer(tail, tail + |Contents| + 1, capacity);
      } else {
        DivModUnique(tail + capacity, 1, tail, capacity);
      }
      if next == tail {
        return false;
      }
      ghost var before := buff[..];
      buff[curr] := data;
      assert buff[..] == before[curr := data];
      head := next;
      Contents := Contents + [data];
      return true;
    }

    /** Takes, or with `peek` only looks at, the oldest item. */
    method Pop(peek: bool := false) returns (r: Option<T>)
      requires Valid()
      modifies `tail, `Contents
      ensures Valid()
      ensures r == if old(Contents) == [] then None else Some(old(Contents)[0])
      ensures Contents == if old(Contents) == [] || peek then old(Contents) else old(Contents)[1..]
    {
      var curr := tail;
      var empty := Empty();
      if empty {
        return None;
      }
      DivModUnique(tail, 0, tail, capacity);
      assert Slot(tail, 0, capacity) == tail && buff[..][tail] == Contents[0];
      var data := buff[curr];
      if !peek {
        DropOldest(buff[..], tail, Contents);
        tail := (curr + 1) % capacity;
        Contents := Contents[1..];
      }
      return Some(data);
    }
  }

  lemma {:induction false} ShiftTail(tail: nat, i: nat, cap: nat)
    requires 0 < cap
    ensures ((tail + 1) % cap + i) % cap == (tail + (i + 1)) % cap
  {
    var q, r := (tail + 1) / cap, (tail + 1) % cap;
    var q', r' := (r + i) / cap, (r + i) % cap;
    assert r + i == cap * q' + r';
    assert tail + (i + 1) == cap * (q + q') + r' by {
      assert cap * (q + q') == cap * q + cap * q';
    }
    DivModUnique(tail + (i + 1), q + q', r', cap);
  }
}
