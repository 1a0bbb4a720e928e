/**
 The DMA buffer pool: its buffers circulate between a free queue, a ready queue and the clients.
 Also the layout of the block of memory the buffers are cut from.
 */
module DmaPool {
  import opened Common
  import opened Arith
  import opened SpscQueue

  // ----- Conservation, on values

  /** Where every buffer is: queued for writing, queued for reading, or with a client. */
  datatype Pool<B(==)> = Pool(w: seq<B>, r: seq<B>, held: set<B>)

  datatype Op<B> = Alloc(read: bool) | Release(buf: B, toFree: bool) | Flush

  /** The effect of one call. A client releases only what it holds. */
  ghost predicate PoolStep<B>(p: Pool<B>, op: Op<B>, q: Pool<B>) {
    match op
    case Alloc(true) => q == if p.r == [] then p else Pool(p.w, p.r[1..], p.held + {p.r[0]})
    case Alloc(false) => q == if p.w == [] then p else Pool(p.w[1..], p.r, p.held + {p.w[0]})
    case Release(b, toFree) =>
      b in p.held && q == if toFree then Pool(p.w + [b], p.r, p.held - {b}) else Pool(p.w, p.r + [b], p.held - {b})
    case Flush => q == Pool(p.w + p.r, [], p.held)
  }

  /** Each buffer of `all` is in exactly one place, exactly once, and nothing else is anywhere. */
  ghost predicate Conserved<B>(p: Pool<B>, all: set<B>) {
    multiset(p.w) + multiset(p.r) + multiset(p.held) == multiset(all)
  }

  lemma MoveFirst<B>(x: seq<B>, y: seq<B>)
    requires y != []
    ensures x + [y[0]] + y[1..] == x + y
  {}

  lemma PopMultiset<B>(s: seq<B>)
    requires s != []
    ensures multiset(s) == multiset{s[0]} + multiset(s[1..])
  {
    assert s == [s[0]] + s[1..];
  }

  /** A buffer that moves from a queue into `held` was not held before. */
  lemma TakeConserves<B>(s: seq<B>, rest: multiset<B>, held: set<B>, all: set<B>)
    requires s != [] && multiset(s) + rest + multiset(held) == multiset(all)
    ensures multiset(s[1..]) + rest + multiset(held + {s[0]}) == multiset(all)
  {
    PopMultiset(s);
    assert multiset(all)[s[0]] <= 1;
    assert s[0] !in held;
    assert multiset(held + {s[0]}) == multiset(held) + multiset{s[0]};
  }

  lemma GiveBack<B>(s: seq<B>, rest: multiset<B>, held: set<B>, all: set<B>, b: B)
    requires b in held && multiset(s) + rest + multiset(held) == multiset(all)
    ensures multiset(s + [b]) + rest + multiset(held - {b}) == multiset(all)
  {
    assert multiset(held) == multiset(held - {b}) + multiset{b};
    assert multiset(s + [b]) == multiset(s) + multiset{b};
  }

  lemma StepConserves<B>(p: Pool<B>, op: Op<B>, q: Pool<B>, all: set<B>)
    requires Conserved(p, all) && PoolStep(p, op, q)
    ensures Conserved(q, all)
  {
    var w, r, h := multiset(p.w), multiset(p.r), multiset(p.held);
    assert w + r + h == multiset(all);
    match op
    case Alloc(true) =>
      assert r + w + h == w + r + h;
      if p.r != [] { TakeConserves(p.r, w, p.held, all); }
    case Alloc(false) =>
      if p.w != [] { TakeConserves(p.w, r, p.held, all); }
    case Release(b, true) =>
      GiveBack(p.w, r, p.held, all, b);
    case Release(b, false) =>
      assert r + w + h == w + r + h;
      GiveBack(p.r, w, p.held, all, b);
    case Flush =>
      assert multiset(q.w) == w + r;
  }

  /** A queued buffer belongs to the pool and no client holds it. */
  lemma QueuedNotHeld<B>(p: Pool<B>, all: set<B>, b: B)
    requires Conserved(p, all) && (b in p.w || b in p.r)
    ensures b in all && b !in p.held
  {
    assert b in multiset(p.w) + multiset(p.r);
    assert multiset(all)[b] == 1;
  }

  /** A new buffer joins the pool through the free queue. */
  lemma JoinConserves<B>(w: seq<B>, all: set<B>, b: B)
    requires Conserved(Pool(w, [], {}), all) && b !in all
    ensures Conserved(Pool(w + [b], [], {}), all + {b})
  {
    assert multiset(all + {b}) == multiset(all) + multiset{b};
  }

  /** The sizes add up, so either queue has room for any buffer that is outside both. */
  lemma CountsAddUp<B>(p: Pool<B>, all: set<B>)
    requires Conserved(p, all)
    ensures |p.w| + |p.r| + |p.held| == |all|
    ensures forall b :: b in all ==>
      multiset(p.w)[b] + multiset(p.r)[b] + (if b in p.held then 1 else 0) == 1
  {
    assert |multiset(p.w) + multiset(p.r) + multiset(p.held)| == |p.w| + |p.r| + |p.held|;
    forall b | b in all ensures multiset(p.w)[b] + multiset(p.r)[b] + (if b in p.held then 1 else 0) == 1 {
      assert multiset(all)[b] == 1;
    }
  }

  /** While a client holds a buffer, both queues are shorter than the number of buffers. */
  lemma HeldLeavesRoom<B>(p: Pool<B>, all: set<B>, b: B)
    requires Conserved(p, all) && b in p.held
    ensures b in all && |p.w| < |all| && |p.r| < |all|
  {
    CountsAddUp(p, all);
    assert b in multiset(p.held) && b in multiset(all);
  }

  ghost predicate IsPoolRun<B(!new)>(states: seq<Pool<B>>, ops: seq<Op<B>>) {
    && |states| == |ops| + 1
    && forall i :: 0 <= i < |ops| ==> PoolStep(states[i], ops[i], states[i + 1])
  }

  /** Over every run, no buffer is lost or duplicated, and no release finds its queue full. */
  lemma {:induction false} EveryRunConserves<B(!new)>(states: seq<Pool<B>>, ops: seq<Op<B>>, all: set<B>, n: nat)
    requires IsPoolRun(states, ops) && Conserved(states[0], all) && n < |states|
    ensures Conserved(states[n], all)
    ensures |states[n].w| + |states[n].r| + |states[n].held| == |all|
    ensures states[n].held != {} ==> |states[n].w| < |all| && |states[n].r| < |all|
  {
    if n > 0 {
      EveryRunConserves(states, ops, all, n - 1);
      assert PoolStep(states[n - 1], ops[n - 1], states[n - 1 + 1]);
      StepConserves(states[n - 1], ops[n - 1], states[n], all);
    }
    CountsAddUp(states[n], all);
  }

  // ----- Order

  /** What has come into the clients' hands. */
  ghost function HandedOut<B(!new)>(p: Pool<B>, q: Pool<B>): seq<B> {
    if b :| b in q.held && b !in p.held then [b] else []
  }

  /** The buffers that the first n calls put into the ready queue, in their order. */
  ghost function Filled<B(!new)>(states: seq<Pool<B>>, ops: seq<Op<B>>, n: nat): seq<B>
    requires |states| == |ops| + 1 && n <= |ops|
  {
    if n == 0 then []
    else Filled(states, ops, n - 1) + if ops[n - 1].Release? && !ops[n - 1].toFree then [ops[n - 1].buf] else []
  }

  /** The buffers that the first n calls took from it: handed to a reader, or flushed. */
  ghost function Drained<B(!new)>(states: seq<Pool<B>>, ops: seq<Op<B>>, n: nat): seq<B>
    requires |states| == |ops| + 1 && n <= |ops|
  {
    if n == 0 then []
    else
      Drained(states, ops, n - 1) +
        if ops[n - 1] == Alloc(true) then HandedOut(states[n - 1], states[n])
        else if ops[n - 1] == Flush then states[n - 1].r else []
  }

  /** The buffers that the first n calls put into the free queue, and those handed to a writer from it. */
  ghost function Freed<B(!new)>(states: seq<Pool<B>>, ops: seq<Op<B>>, n: nat): seq<B>
    requires |states| == |ops| + 1 && n <= |ops|
  {
    if n == 0 then []
    else
      Freed(states, ops, n - 1) +
        if ops[n - 1].Release? && ops[n - 1].toFree then [ops[n - 1].buf]
        else if ops[n - 1] == Flush then states[n - 1].r else []
  }

  ghost function Lent<B(!new)>(states: seq<Pool<B>>, ops: seq<Op<B>>, n: nat): seq<B>
    requires |states| == |ops| + 1 && n <= |ops|
  {
    if n == 0 then []
    else Lent(states, ops, n - 1) + if ops[n - 1] == Alloc(false) then HandedOut(states[n - 1], states[n]) else []
  }

  /** Taking the first of a queue hands it out. */
  lemma TakenIsHandedOut<B(!new)>(p: Pool<B>, q: Pool<B>, all: set<B>, b: B)
    requires Conserved(p, all) && (b in p.w || b in p.r) && q.held == p.held + {b}
    ensures HandedOut(p, q) == [b]
  {
    QueuedNotHeld(p, all, b);
    assert b in q.held;
  }

  /** What one call adds to the four histories keeps both queues in order. */
  lemma StepIsFifo<B(!new)>(p: Pool<B>, op: Op<B>, q: Pool<B>, all: set<B>)
    requires Conserved(p, all) && PoolStep(p, op, q)
    ensures p.r + (if op.Release? && !op.toFree then [op.buf] else [])
      == (if op == Alloc(true) then HandedOut(p, q) else if op == Flush then p.r else []) + q.r
    ensures p.w + (if op.Release? && op.toFree then [op.buf] else if op == Flush then p.r else [])
      == (if op == Alloc(false) then HandedOut(p, q) else []) + q.w
  {
    if op == Alloc(true) && p.r != [] { TakenIsHandedOut(p, q, all, p.r[0]); }
    if op == Alloc(false) && p.w != [] { TakenIsHandedOut(p, q, all, p.w[0]); }
  }

  /**
   Over every run both queues are first in, first out: readers and `flush` get the buffers of the ready
   queue in the order in which they were released into it, and writers those of the free queue.
   */
  lemma {:induction false} EveryRunIsFifo<B(!new)>(states: seq<Pool<B>>, ops: seq<Op<B>>, all: set<B>, n: nat)
    requires IsPoolRun(states, ops) && Conserved(states[0], all) && n <= |ops|
    ensures states[0].r + Filled(states, ops, n) == Drained(states, ops, n) + states[n].r
    ensures states[0].w + Freed(states, ops, n) == Lent(states, ops, n) + states[n].w
  {
    hide PoolStep, Conserved, HandedOut;
    if n > 0 {
      EveryRunIsFifo(states, ops, all, n - 1);
      EveryRunConserves(states, ops, all, n - 1);
      var p, op, q := states[n - 1], ops[n - 1], states[n - 1 + 1];
      assert PoolStep(p, op, q);
      StepIsFifo(p, op, q, all);
      var out := if op == Alloc(true) then HandedOut(p, q) else if op == Flush then p.r else [];
      Shifted(states[0].r, Filled(states, ops, n - 1), Drained(states, ops, n - 1), p.r,
        if op.Release? && !op.toFree then [op.buf] else [], out, q.r);
      Shifted(states[0].w, Freed(states, ops, n - 1), Lent(states, ops, n - 1), p.w,
        if op.Release? && op.toFree then [op.buf] else if op == Flush then p.r else [],
        if op == Alloc(false) then HandedOut(p, q) else [], q.w);
    }
  }

  lemma Shifted<B>(start: seq<B>, into: seq<B>, from: seq<B>, now: seq<B>, more: seq<B>, out: seq<B>, next: seq<B>)
    requires start + into == from + now && now + more == out + next
    ensures start + (into + more) == (from + out) + next
  {
    assert start + (into + more) == (start + into) + more;
    assert (from + now) + more == from + (now + more);
  }

  // ----- The objects

  /** Flag words are sets of bit numbers. */
  type Flags = set<nat>

  const READ: nat := 0
  const WRITE: nat := 1

  /** As flag words: 1 and 2. */
  lemma FlagBits()
    ensures Pow(2, READ) == 1 && Pow(2, WRITE) == 2
  {
    assert Pow(2, 0) == 1;
  }

  class DMABuffer {
    const ptr: nat
    var flags: Flags

    constructor (ptr: nat)
      ensures this.ptr == ptr && flags == {}
    {
      this.ptr, flags := ptr, {};
    }

    /** `get_flags` answers a bool, which the caller may widen to the word 0 or 1. */
    function AnyFlag(): (word: Flags)
      reads this
      ensures word == {} <==> flags == {}
      ensures word != {} ==> READ in word
    {
      if flags == {} then {} else {READ}
    }
  }

  // ----- Memory layout

  /** x with its k low bits cleared: x & ~(2^k - 1). */
  function ClearLow(x: nat, k: nat): nat {
    if k == 0 then x else 2 * ClearLow(x / 2, k - 1)
  }

  lemma {:induction false} ClearLowIsFloor(x: nat, k: nat)
    ensures ClearLow(x, k) % Pow(2, k) == 0
    ensures ClearLow(x, k) <= x < ClearLow(x, k) + Pow(2, k)
  {
    if k > 0 {
      ClearLowIsFloor(x / 2, k - 1);
      FloorOfHalf(ClearLow(x / 2, k - 1), Pow(2, k - 1), x);
    }
  }

  /** A multiple of p that is the floor of x / 2 doubles to a multiple of 2p that is the floor of x. */
  lemma {:induction false} FloorOfHalf(c: nat, p: nat, x: nat)
    requires p > 0 && c % p == 0 && c <= x / 2 < c + p
    ensures (2 * c) % (2 * p) == 0 && 2 * c <= x < 2 * c + 2 * p
  {
    DoubleMultiple(c, p, c / p);
  }

  lemma {:induction false} DoubleMultiple(c: nat, p: nat, q: nat)
    requires p > 0 && c == p * q
    ensures (2 * c) % (2 * p) == 0
  {
    assert 2 * c == (2 * p) * q + 0;
    DivModUnique(2 * c, q, 0, 2 * p);
  }

  /** `aligned_malloc`: A = 2^k; `stashed` is what malloc returned for size + A - 1 + word bytes, 0 if it failed. */
  function AlignedMalloc(k: nat, stashed: nat, word: nat): (ptr: nat) {
    if Pow(2, k) % 2 != 0 || stashed == 0 then 0
    else ClearLow(stashed + (Pow(2, k) - 1 + word), k)
  }

  lemma PowerIsEven(k: nat)
    requires k > 0
    ensures Pow(2, k) % 2 == 0
  {
    DivModUnique(Pow(2, k), Pow(2, k - 1), 0, 2);
  }

  /** The result is aligned, and both the caller's bytes and the stashed word lie in the malloc block. */
  lemma AlignedMallocFits(k: nat, stashed: nat, word: nat, size: nat)
    requires stashed > 0 && k > 0
    ensures var ptr := AlignedMalloc(k, stashed, word);
      && ptr % Pow(2, k) == 0
      && stashed <= ptr - word
      && ptr + size <= stashed + (size + (Pow(2, k) - 1 + word))
  {
    PowerIsEven(k);
    var x := stashed + (Pow(2, k) - 1 + word);
    ClearLowIsFloor(x, k);
    assert AlignedMalloc(k, stashed, word) == ClearLow(x, k);
  }

  /** There is no pointer exactly when malloc failed or the alignment is not even. */
  lemma AlignedMallocFails(k: nat, stashed: nat, word: nat)
    ensures AlignedMalloc(k, stashed, word) == 0 <==> stashed == 0 || k == 0
  {
    if k == 0 {
      assert Pow(2, 0) == 1;
    } else {
      PowerIsEven(k);
      if stashed > 0 { AlignedMallocFits(k, stashed, word, 0); }
    }
  }

  /** The rounded-up size of one buffer. */
  function BufSize(bytes: nat, k: nat): nat {
    ClearLow(bytes + (Pow(2, k) - 1), k)
  }

  lemma BufSizeRoundsUp(bytes: nat, k: nat)
    ensures bytes <= BufSize(bytes, k) < bytes + Pow(2, k)
    ensures BufSize(bytes, k) % Pow(2, k) == 0
  {
    ClearLowIsFloor(bytes + (Pow(2, k) - 1), k);
  }

  /** The address of the i-th buffer. */
  function BufAt(mem: nat, bytes: nat, k: nat, i: nat): nat {
    mem + i * BufSize(bytes, k)
  }

  lemma {:induction false} SumOfMultiples(x: nat, y: nat, i: nat, a: nat)
    requires a > 0 && x % a == 0 && y % a == 0
    ensures (x + i * y) % a == 0
  {
    var m, c := x / a, y / a;
    assert i * y == i * (a * c) == a * (i * c);
    assert x + i * y == a * m + a * (i * c) == a * (m + i * c);
    DivModUnique(x + i * y, m + i * c, 0, a);
  }

  /** A buffer cut from an aligned block is aligned, long enough, and inside the block of n slices. */
  lemma {:induction false} BufferFits(mem: nat, bytes: nat, k: nat, n: nat, i: nat)
    requires mem % Pow(2, k) == 0 && i < n
    ensures bytes <= BufSize(bytes, k) < bytes + Pow(2, k)
    ensures BufAt(mem, bytes, k, i) % Pow(2, k) == 0
    ensures mem <= BufAt(mem, bytes, k, i)
    ensures BufAt(mem, bytes, k, i) + bytes <= mem + n * BufSize(bytes, k)
  {
    hide BufSize, Pow;
    BufSizeRoundsUp(bytes, k);
    SumOfMultiples(mem, BufSize(bytes, k), i, Pow(2, k));
    BuffersDisjoint(mem, bytes, k, i, n);
  }

  /** Different buffers do not overlap. */
  lemma BuffersDisjoint(mem: nat, bytes: nat, k: nat, i: nat, j: nat)
    requires i < j
    ensures BufAt(mem, bytes, k, i) + bytes <= BufAt(mem, bytes, k, j)
  {
    hide BufSize, Pow;
    BufSizeRoundsUp(bytes, k);
    var size := BufSize(bytes, k);
    MulMono(size, i + 1, j);
    assert (i + 1) * size == i * size + size;
  }

  // ----- The pool object

  /** The j-th buffer is the j-th slice. */
  ghost predicate CutFrom(bufs: seq<DMABuffer?>, mem: nat, bytes: nat, k: nat) {
    forall j :: 0 <= j < |bufs| ==> bufs[j] != null && bufs[j].ptr == BufAt(mem, bytes, k, j)
  }

  lemma CutNext(bufs: seq<DMABuffer?>, mem: nat, bytes: nat, k: nat, buf: DMABuffer)
    requires CutFrom(bufs, mem, bytes, k) && buf.ptr == BufAt(mem, bytes, k, |bufs|)
    ensures CutFrom(bufs + [buf], mem, bytes, k)
  {}

  class DMAPool {
    const wqueue: SPSCQueue<DMABuffer?>
    const rqueue: SPSCQueue<DMABuffer?>
    /** Every buffer of the pool, and those out with clients. */
    ghost const all: set<DMABuffer?>
    ghost var held: set<DMABuffer?>

    ghost function State(): Pool<DMABuffer?>
      reads this, wqueue, rqueue
    {
      Pool(wqueue.Contents, rqueue.Contents, held)
    }

    ghost predicate Valid()
      reads this, wqueue, rqueue, wqueue.buff, rqueue.buff
    {
      && wqueue != rqueue && wqueue.buff != rqueue.buff
      && wqueue.Valid() && rqueue.Valid()
      && null !in all && Conserved(State(), all)
      && (all != {} ==> wqueue.capacity == rqueue.capacity > |all|)
    }

    /**
     mem is the aligned block, 0 when there is none: given by the caller, or by `aligned_malloc`.
     The i-th buffer of the free queue gets the i-th slice.
     */
    constructor (bytes: nat, n_buffers: nat, k: nat, mem_in: nat, stashed: nat, word: nat)
      ensures Valid() && held == {} && rqueue.Contents == []
      ensures var mem := if mem_in == 0 then AlignedMalloc(k, stashed, word) else mem_in;
        && |wqueue.Contents| == (if BufSize(bytes, k) == 0 || mem == 0 then 0 else n_buffers)
        && CutFrom(wqueue.Contents, mem, bytes, k)
    {
      var w := new SPSCQueue<DMABuffer?>(n_buffers);
      var r := new SPSCQueue<DMABuffer?>(n_buffers);
      var bufsize := BufSize(bytes, k);
      var mem := mem_in;
      ghost var made: set<DMABuffer?> := {};
      assert Conserved(Pool(w.Contents, [], {}), made);
      hide Conserved, BufAt, BufSize, AlignedMalloc;
      if bufsize != 0 && n_buffers != 0 {
        if mem == 0 {
          mem := AlignedMalloc(k, stashed, word);
        }
        if mem != 0 {
          made := Fill(w, mem, bytes, k, n_buffers);
        }
      }
      wqueue, rqueue, held, all := w, r, {}, made;
    }

    /** The loop of the constructor: n new buffers, in the order of their addresses. */
    static method Fill(w: SPSCQueue<DMABuffer?>, mem: nat, bytes: nat, k: nat, n: nat)
        returns (ghost made: set<DMABuffer?>)
      requires w.Valid() && w.Contents == [] && w.capacity == n + 1
      modifies w, w.buff
      ensures w.Valid() && Conserved(Pool(w.Contents, [], {}), made)
      ensures null !in made && |made| == |w.Contents| == n && fresh(made)
      ensures CutFrom(w.Contents, mem, bytes, k)
    {
      made := {};
      var bufsize := BufSize(bytes, k);
      assert Conserved(Pool(w.Contents, [], {}), made) && CutFrom(w.Contents, mem, bytes, k);
      hide Conserved, BufSize, CutFrom;
      for i := 0 to n
        invariant w.Valid() && |w.Contents| == i && Conserved(Pool(w.Contents, [], {}), made)
        invariant null !in made && |made| == i && fresh(made)
        invariant CutFrom(w.Contents, mem, bytes, k)
      {
        var buf := new DMABuffer(mem + i * bufsize);
        ghost var before := w.Contents;
        var ok := w.Push(buf);
        CutNext(before, mem, bytes, k, buf);
        JoinConserves(before, made, buf);
        made := made + {buf};
      }
    }

    /** Takes a buffer from the ready queue (READ) or the free queue, and hands it to the client. */
    method Alloc(flags: Flags) returns (buf: DMABuffer?)
      requires Valid()
      modifies this`held, wqueue, rqueue, all
      ensures Valid()
      ensures PoolStep(old(State()), Op.Alloc(READ in flags), State())
      ensures buf == null <==> (if READ in flags then old(rqueue.Contents) else old(wqueue.Contents)) == []
      ensures buf != null ==> buf in held && buf !in old(held)
      ensures buf != null ==> buf.flags == old(buf.flags) - {READ, WRITE} + flags
      ensures forall b :: b in all && b != null && b != buf ==> b.flags == old(b.flags)
    {
      ghost var s := State();
      var r;
      if READ in flags {
        r := rqueue.Pop();
      } else {
        r := wqueue.Pop();
      }
      buf := null;
      if r.Some? {
        buf := r.value;
        QueuedNotHeld(s, all, buf);
        held := held + {buf};
        StepConserves(s, Op.Alloc(READ in flags), State(), all);
        buf.flags := buf.flags - {READ, WRITE};
        buf.flags := buf.flags + flags;
      }
    }

    /**
     `free`: a buffer flagged READ goes back to the free queue, any other to the ready queue.
     With no flags passed, the bool answer of `get_flags` stands in for them.
     Neither push can fail.
     */
    method Free(buf: DMABuffer?, flags: Flags := {})
      requires Valid() && (buf != null ==> buf in held)
      modifies this`held, wqueue, rqueue, wqueue.buff, rqueue.buff, if buf == null then {} else {buf}
      ensures Valid()
      ensures buf == null ==> State() == old(State())
      ensures buf != null ==>
        var toFree := READ in flags || (flags == {} && old(buf.flags) != {});
        && PoolStep(old(State()), Op.Release(buf, toFree), State())
        && buf.flags == if toFree then {} else old(buf.flags)
    {
      hide Conserved;
      if buf == null { return; }
      ghost var s := State();
      HeldLeavesRoom(s, all, buf);
      var word := flags;
      if word == {} {
        word := buf.AnyFlag();
      }
      var ok;
      if READ in word {
        buf.flags := {};
        ok := wqueue.Push(buf);
      } else {
        ok := rqueue.Push(buf);
      }
      assert ok;
      held := held - {buf};
      StepConserves(s, Op.Release(buf, READ in word), State(), all);
    }

    /** `DMABuffer::release` of a buffer the client holds; one without an address stays with the client. */
    method Release(buf: DMABuffer)
      requires Valid() && buf in held
      modifies this`held, wqueue, rqueue, wqueue.buff, rqueue.buff, buf
      ensures Valid()
      ensures buf.ptr == 0 ==> State() == old(State()) && buf.flags == old(buf.flags)
      ensures buf.ptr != 0 ==> PoolStep(old(State()), Op.Release(buf, READ in old(buf.flags)), State())
    {
      if buf.ptr != 0 {
        Free(buf, buf.flags);
      }
    }

    /** One turn of the flush loop: the oldest ready buffer becomes the newest free one. */
    method FlushOne()
      requires Valid() && rqueue.Contents != []
      requires forall b :: b in all && b != null ==> b.ptr != 0
      modifies this`held, wqueue, rqueue, wqueue.buff, rqueue.buff, all
      ensures Valid() && held == old(held)
      ensures wqueue.Contents == old(wqueue.Contents) + [old(rqueue.Contents)[0]]
      ensures rqueue.Contents == old(rqueue.Contents)[1..]
    {
      QueuedNotHeld(State(), all, rqueue.Contents[0]);
      var buf := Alloc({READ});
      QueuedNotHeld(old(State()), all, buf);
      assert READ in buf.flags;
      Release(buf);
    }

    /** Empties the ready queue into the free queue, in order. */
    method Flush()
      requires Valid() && forall b :: b in all && b != null ==> b.ptr != 0
      modifies this`held, wqueue, rqueue, wqueue.buff, rqueue.buff, all
      ensures Valid()
      ensures PoolStep(old(State()), Op.Flush, State())
    {
      hide Conserved;
      ghost var w, r := wqueue.Contents, rqueue.Contents;
      var empty := rqueue.Empty();
      while !empty
        invariant Valid() && held == old(held)
        invariant wqueue.Contents + rqueue.Contents == w + r
        invariant empty <==> rqueue.Contents == []
        decreases |rqueue.Contents|
      {
        MoveFirst(wqueue.Contents, rqueue.Contents);
        FlushOne();
        empty := rqueue.Empty();
      }
    }
  }
}
