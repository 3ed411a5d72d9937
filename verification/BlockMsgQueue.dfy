/**
 The blocking message queue of block_msg_queue.c: a ring of slots, and the protocol of senders
 and receivers that wait on its condition variable.
 */
module BlockMsgQueue {
  import opened Common

  datatype Code = Ok | Timeout | Full | Size

  // ---------------------------------------------------------------- the ring on values

  /** msg_pool, head and tail; one slot more than the capacity asked for. */
  datatype Ring = Ring(pool: seq<seq<byte>>, head: nat, tail: nat) {
    predicate Valid() {
      |pool| >= 2 && head < |pool| && tail < |pool|
    }

    function Capacity(): nat
      requires Valid()
    {
      |pool| - 1
    }
  }

  function Wrap(i: nat, n: nat): nat
    requires i < 2 * n
  {
    if i < n then i else i - n
  }

  /** b_mq_msgs. */
  function Count(r: Ring): (n: nat)
    requires r.Valid()
    ensures n <= r.Capacity()
  {
    (r.tail - r.head + |r.pool|) % |r.pool|
  }

  /** The messages held, oldest first. */
  function Contents(r: Ring): (q: seq<seq<byte>>)
    requires r.Valid()
    ensures |q| == Count(r)
  {
    seq(Count(r), k requires 0 <= k < Count(r) => r.pool[Wrap(r.head + k, |r.pool|)])
  }

  lemma NothingHeld(r: Ring)
    requires r.Valid() && r.head == r.tail
    ensures Contents(r) == []
  {
  }

  /** A slot of n bytes that begins with m. */
  function Padded(m: seq<byte>, n: nat): seq<byte>
    requires |m| <= n
  {
    m + seq(n - |m|, _ => 0)
  }

  /** The slot holds the message and zeros behind it. */
  predicate Carries(slot: seq<byte>, m: seq<byte>) {
    m <= slot && forall i | |m| <= i < |slot| :: slot[i] == 0
  }

  lemma PaddedCarries(m: seq<byte>, n: nat)
    requires |m| <= n
    ensures |Padded(m, n)| == n && Carries(Padded(m, n), m)
  {
  }

  /** The part of b_mq_send behind its tests. */
  function Store(r: Ring, slot: seq<byte>): (r': Ring)
    requires r.Valid()
    ensures r'.Valid() && |r'.pool| == |r.pool|
  {
    Ring(r.pool[r.tail := slot], r.head, (r.tail + 1) % |r.pool|)
  }

  /** The part of b_mq_recv that takes a message, whether or not there is one. */
  function Drop(r: Ring): (r': Ring)
    requires r.Valid()
    ensures r'.Valid() && r'.pool == r.pool
  {
    r.(head := (r.head + 1) % |r.pool|)
  }

  lemma ModWrap(i: nat, n: nat)
    requires i < 2 * n
    ensures i % n == Wrap(i, n)
  {
  }

  /** The test of b_mq_send refuses exactly a ring that holds its capacity. */
  lemma FullIffCapacity(r: Ring)
    requires r.Valid()
    ensures (r.tail + 1) % |r.pool| == r.head <==> Count(r) == r.Capacity()
    ensures r.head == r.tail <==> Count(r) == 0
  {
    ModWrap(r.tail + 1, |r.pool|);
    ModWrap(r.tail - r.head + |r.pool|, |r.pool|);
  }

  /** A message stored is the youngest, and the others stay. */
  lemma StoreAppends(r: Ring, slot: seq<byte>)
    requires r.Valid() && Count(r) < r.Capacity()
    ensures Contents(Store(r, slot)) == Contents(r) + [slot]
  {
    var n, c, r' := |r.pool|, Count(r), Store(r, slot);
    CountIs(r);
    ModWrap(r.tail + 1, n);
    CountIs(r');
    assert Count(r') == c + 1 && Wrap(r.head + c, n) == r.tail;
    forall k | 0 <= k < c
      ensures Contents(r')[k] == Contents(r)[k]
    {
      assert Wrap(r.head + k, n) != r.tail;
    }
    assert Contents(r')[c] == slot;
  }

  lemma CountIs(r: Ring)
    requires r.Valid()
    ensures Count(r) == if r.tail >= r.head then r.tail - r.head else r.tail - r.head + |r.pool|
  {
    ModWrap(r.tail - r.head + |r.pool|, |r.pool|);
  }

  /** A message taken from a ring that holds one is the oldest, and the others stay. */
  lemma DropTakesOldest(r: Ring)
    requires r.Valid() && Count(r) > 0
    ensures r.pool[r.head] == Contents(r)[0] && Contents(Drop(r)) == Contents(r)[1..]
  {
    var n, c, r' := |r.pool|, Count(r), Drop(r);
    CountIs(r);
    ModWrap(r.head + 1, n);
    CountIs(r');
    assert Count(r') == c - 1;
    assert Contents(r)[0] == r.pool[Wrap(r.head + 0, n)];
    forall k | 0 <= k < c - 1
      ensures Contents(r')[k] == Contents(r)[1..][k]
    {
      assert Wrap(r'.head + k, n) == Wrap(r.head + (k + 1), n);
    }
  }

  /** Taken from an empty ring, the message is a stale slot and the ring then claims to be full. */
  lemma DropFromEmpty(r: Ring)
    requires r.Valid() && Count(r) == 0
    ensures Count(Drop(r)) == r.Capacity()
  {
    var n := |r.pool|;
    ModWrap(r.head + 1, n);
    ModWrap(r.tail - r.head + n, n);
    ModWrap(r.tail - Drop(r).head + n, n);
  }

  // ---------------------------------------------------------------- the functions

  /** Mirrors struct block_msg_queue. */
  class Queue {
    const msgSize: nat
    const maxMsgs: nat
    const pool: array<seq<byte>>
    var head: nat
    var tail: nat

    ghost predicate Valid()
      reads this, pool
    {
      && pool.Length == maxMsgs && Model().Valid()
      && forall i | 0 <= i < pool.Length :: |pool[i]| == msgSize
    }

    ghost function Model(): Ring
      reads this, pool
    {
      Ring(pool[..], head, tail)
    }

    /** b_mq_create. */
    constructor (size: nat, capacity: nat)
      requires capacity > 0
      ensures Valid() && msgSize == size && Model().Capacity() == capacity && Contents(Model()) == [] && fresh(pool)
    {
      msgSize, maxMsgs := size, capacity + 1;
      head, tail := 0, 0;
      pool := new seq<byte>[capacity + 1](_ => seq(size, _ => 0));
    }

    /** b_mq_reset. */
    method Reset()
      requires Valid()
      modifies this
      ensures Valid() && Contents(Model()) == []
    {
      hide Contents;
      head, tail := 0, 0;
      NothingHeld(Model());
    }

    /** b_mq_msgs. */
    method Msgs() returns (msgs: nat)
      requires Valid()
      ensures msgs == |Contents(Model())|
    {
      msgs := (tail - head + maxMsgs) % maxMsgs;
    }

    /** b_mq_remain. */
    method Remain() returns (remain: nat)
      requires Valid()
      ensures remain + |Contents(Model())| == Model().Capacity()
    {
      remain := maxMsgs - 1 - (tail - head + maxMsgs) % maxMsgs;
    }

    /** b_mq_send. */
    method Send(buffer: seq<byte>, size: nat) returns (ret: Code)
      requires Valid() && size <= |buffer|
      modifies this, pool
      ensures Valid() && ret in {Ok, Full, Size}
      ensures ret == Size <==> size > msgSize
      ensures ret == Full <==> size <= msgSize && |old(Contents(Model()))| == old(Model().Capacity())
      ensures ret == Ok ==> Model() == Store(old(Model()), Padded(buffer[..size], msgSize))
      ensures ret == Ok ==> Contents(Model()) == old(Contents(Model())) + [Padded(buffer[..size], msgSize)]
      ensures ret == Ok ==>
                var q, held := Contents(Model()), |old(Contents(Model()))|;
                |q| == held + 1 && q[..held] == old(Contents(Model())) && Carries(q[held], buffer[..size])
      ensures ret != Ok ==> Model() == old(Model())
    {
      hide Contents, Count;
      ghost var r := Model();
      FullIffCapacity(r);
      if size > msgSize {
        return Size;
      }
      if (tail + 1) % maxMsgs == head {
        return Full;
      }
      StoreAppends(r, Padded(buffer[..size], msgSize));
      PaddedCarries(buffer[..size], msgSize);
      pool[tail] := Padded(buffer[..size], msgSize);
      tail := (tail + 1) % maxMsgs;
      assert Model() == Store(r, Padded(buffer[..size], msgSize));
      ret := Ok;
    }

    /** b_mq_recv without waiting (timeout 0). */
    method Recv(size: nat) returns (ret: Code, buffer: seq<byte>)
      requires Valid()
      modifies this
      ensures Valid() && ret in {Ok, Timeout, Size}
      ensures ret == Size <==> size > msgSize
      ensures ret == Timeout <==> size <= msgSize && old(Contents(Model())) == []
      ensures ret == Ok ==> |buffer| == size && buffer <= old(Contents(Model()))[0] && Contents(Model()) == old(Contents(Model()))[1..]
      ensures ret != Ok ==> Model() == old(Model())
    {
      hide Contents, Count;
      buffer := [];
      if size > msgSize {
        return Size, buffer;
      }
      FullIffCapacity(Model());
      if head == tail {
        return Timeout, buffer;
      }
      DropTakesOldest(Model());
      buffer := Take(size);
      ret := Ok;
    }

    /** The end of b_mq_recv: copies the slot at head and moves head, without a test. */
    method Take(size: nat) returns (buffer: seq<byte>)
      requires Valid() && size <= msgSize
      modifies this`head
      ensures Valid() && Model() == Drop(old(Model())) && buffer == old(pool[head][..size])
    {
      buffer := pool[head][..size];
      head := (head + 1) % maxMsgs;
    }
  }

  // ---------------------------------------------------------------- what a user sees

  datatype Call = CallSend(m: seq<byte>) | CallRecv(size: nat)

  /** What a receiver that asks for `size` bytes of a message gets. */
  function Received(m: seq<byte>, size: nat): (b: seq<byte>)
    ensures |b| == size
  {
    seq(size, i requires 0 <= i < size => if i < |m| then m[i] else 0)
  }

  /** A plain queue of messages: what it holds and what it handed out after the calls. */
  function Plain(msgSize: nat, capacity: nat, calls: seq<Call>): (r: (seq<seq<byte>>, seq<seq<byte>>)) {
    if calls == [] then ([], [])
    else
      var (held, out) := Plain(msgSize, capacity, calls[..|calls| - 1]);
      match calls[|calls| - 1]
      case CallSend(m) => if |m| > msgSize || |held| == capacity then (held, out) else (held + [m], out)
      case CallRecv(size) =>
        if size > msgSize || held == [] then (held, out) else (held[1..], out + [Received(held[0], size)])
  }

  ghost predicate AllCarry(slots: seq<seq<byte>>, ms: seq<seq<byte>>) {
    |slots| == |ms| && forall i | 0 <= i < |ms| :: Carries(slots[i], ms[i])
  }

  lemma ReceivedOf(b: seq<byte>, slot: seq<byte>, m: seq<byte>)
    requires Carries(slot, m) && b <= slot
    ensures b == Received(m, |b|)
  {
  }

  /** A new queue under any calls hands out what a plain queue of messages does, byte for byte. */
  method Serve(msgSize: nat, capacity: nat, calls: seq<Call>) returns (out: seq<seq<byte>>)
    requires capacity > 0
    ensures out == Plain(msgSize, capacity, calls).1
  {
    hide Contents, Carries, Received, Store, Padded;
    var q := new Queue(msgSize, capacity);
    out := [];
    ghost var held := [];
    for i := 0 to |calls|
      invariant fresh(q) && fresh(q.pool) && q.Valid() && q.msgSize == msgSize && q.Model().Capacity() == capacity
      invariant (held, out) == Plain(msgSize, capacity, calls[..i]) && AllCarry(Contents(q.Model()), held)
    {
      assert calls[..i + 1][..i] == calls[..i];
      match calls[i] {
        case CallSend(m) =>
          assert m[..|m|] == m;
          var ret := q.Send(m, |m|);
          if ret == Ok {
            held := held + [m];
          }
        case CallRecv(size) =>
          ghost var before := Contents(q.Model());
          var ret, b := q.Recv(size);
          if ret == Ok {
            ReceivedOf(b, before[0], held[0]);
            held := held[1..];
            out := out + [b];
          }
      }
    }
    assert calls[..|calls|] == calls;
  }

  // ---------------------------------------------------------------- the protocol

  /** The queue, the receivers inside pthread_cond_wait, those that have been woken but do not
      hold the mutex yet, and the messages accepted and delivered so far. */
  datatype System = System(ring: Ring, waiting: set<nat>, woken: set<nat>,
                           accepted: seq<seq<byte>>, delivered: seq<seq<byte>>)

  /** What a thread does while it holds the mutex; Spurious and Reset are the steps that the
      guarantee excludes. */
  datatype Event =
    | Send(slot: seq<byte>)
    | Recv(who: nat, patient: bool)
    | Wake(who: nat)
    | Expire(who: nat)
    | Spurious(who: nat)
    | Reset

  predicate Idle(s: System, who: nat) {
    who !in s.waiting && who !in s.woken
  }

  /** The message at head goes to a receiver. */
  function Deliver(s: System): System
    requires s.ring.Valid()
  {
    s.(ring := Drop(s.ring), delivered := s.delivered + [s.ring.pool[s.ring.head]])
  }

  /** pthread_cond_signal: one waiting receiver, if there is one, is woken. */
  ghost predicate Signalled(s: System, s': System) {
    if s.waiting == {} then s' == s
    else exists who :: who in s.waiting && s' == s.(waiting := s.waiting - {who}, woken := s.woken + {who})
  }

  ghost predicate Next(s: System, e: Event, s': System)
    requires s.ring.Valid()
  {
    match e
    case Send(slot) =>
      if Count(s.ring) == s.ring.Capacity() then s' == s
      else Signalled(s.(ring := Store(s.ring, slot), accepted := s.accepted + [slot]), s')
    case Recv(who, patient) =>
      && Idle(s, who)
      && s' == (if Count(s.ring) > 0 then Deliver(s)
                else if patient then s.(waiting := s.waiting + {who})
                else s)
    case Wake(who) => who in s.woken && s' == Deliver(s.(woken := s.woken - {who}))
    case Expire(who) => who in s.waiting && s' == s.(waiting := s.waiting - {who})
    case Spurious(who) => who in s.waiting && s' == s.(waiting := s.waiting - {who}, woken := s.woken + {who})
    case Reset => s' == s.(ring := s.ring.(head := 0, tail := 0))
  }

  /** What the guarantee asks of a step: one receiver, no reset, no wake-up but from a signal. */
  predicate Disciplined(e: Event) {
    match e
    case Recv(who, _) => who == 0
    case Spurious(_) => false
    case Reset => false
    case _ => true
  }

  /** Nothing lost, repeated or out of order; and a woken receiver finds a message. */
  ghost predicate Inv(s: System) {
    && s.ring.Valid()
    && s.delivered + Contents(s.ring) == s.accepted
    && s.waiting <= {0} && s.woken <= {0}
    && s.waiting * s.woken == {}
    && (s.woken != {} ==> Count(s.ring) > 0)
  }

  predicate Start(s: System) {
    s.ring.Valid() && Count(s.ring) == 0 && s.waiting == {} && s.woken == {} && s.accepted == [] && s.delivered == []
  }

  lemma DeliverKeeps(s: System)
    requires s.ring.Valid() && s.delivered + Contents(s.ring) == s.accepted && Count(s.ring) > 0
    ensures Deliver(s).delivered + Contents(Deliver(s).ring) == s.accepted
  {
    hide Contents, Count, Drop;
    DropTakesOldest(s.ring);
    var q := Contents(s.ring);
    assert s.delivered + [q[0]] + q[1..] == s.delivered + ([q[0]] + q[1..]);
    assert [q[0]] + q[1..] == q;
  }

  lemma StoreKeeps(s: System, slot: seq<byte>)
    requires s.ring.Valid() && s.delivered + Contents(s.ring) == s.accepted && Count(s.ring) < s.ring.Capacity()
    ensures s.delivered + Contents(Store(s.ring, slot)) == s.accepted + [slot]
    ensures Count(Store(s.ring, slot)) > 0
  {
    hide Contents, Count, Store;
    StoreAppends(s.ring, slot);
    assert |Contents(Store(s.ring, slot))| > 0;
    assert s.delivered + (Contents(s.ring) + [slot]) == s.delivered + Contents(s.ring) + [slot];
  }

  /** Every disciplined step keeps the invariant. */
  lemma NextKeeps(s: System, e: Event, s': System)
    requires Inv(s) && Disciplined(e) && Next(s, e, s')
    ensures Inv(s')
  {
    hide Contents, Count, Store, Drop;
    match e
    case Send(slot) =>
      if Count(s.ring) != s.ring.Capacity() {
        StoreKeeps(s, slot);
      }
    case Recv(_, _) =>
      if Count(s.ring) > 0 {
        DeliverKeeps(s);
      }
    case Wake(_) =>
      DeliverKeeps(s.(woken := {}));
    case _ =>
  }

  /** States linked by events. */
  ghost predicate Run(ss: seq<System>, es: seq<Event>) {
    |ss| == |es| + 1 && forall i | 0 <= i < |es| :: ss[i].ring.Valid() && Next(ss[i], es[i], ss[i + 1])
  }

  lemma {:induction false} RunKeeps(ss: seq<System>, es: seq<Event>, n: nat)
    requires Run(ss, es) && Start(ss[0]) && n < |ss| && forall e <- es :: Disciplined(e)
    ensures Inv(ss[n])
  {
    hide Next, Contents, Disciplined;
    if n == 0 {
      StartInv(ss[0]);
    } else {
      RunKeeps(ss, es, n - 1);
      NextKeeps(ss[n - 1], es[n - 1], ss[n]);
    }
  }

  lemma StartInv(s: System)
    requires Start(s)
    ensures Inv(s)
  {
    assert Contents(s.ring) == [];
  }

  /** In every interleaving of any senders with one receiver: what was delivered, followed by what
      the queue holds, is what was accepted, in send order; and a send is refused exactly when the
      queue holds its capacity. */
  lemma Fifo(ss: seq<System>, es: seq<Event>, n: nat)
    requires Run(ss, es) && Start(ss[0]) && n < |ss| && forall e <- es :: Disciplined(e)
    ensures ss[n].ring.Valid() && ss[n].delivered + Contents(ss[n].ring) == ss[n].accepted
    ensures n < |es| && es[n].Send? ==> (ss[n + 1].accepted == ss[n].accepted <==> Count(ss[n].ring) == |ss[n].ring.pool| - 1)
  {
    hide Contents, Count;
    RunKeeps(ss, es, n);
  }

  // ---------------------------------------------------------------- why each condition is needed

  /** The take behind a wait has no test of its own: it delivers the oldest message exactly if the
      queue still holds one, and otherwise leaves the queue claiming to be full. */
  lemma WakeIsFifo(s: System, who: nat, s': System)
    requires s.ring.Valid() && s.delivered + Contents(s.ring) == s.accepted && Next(s, Wake(who), s')
    ensures Count(s.ring) > 0 <==> s'.delivered + Contents(s'.ring) == s'.accepted
  {
    hide Contents, Count, Drop;
    if Count(s.ring) > 0 {
      DeliverKeeps(s.(woken := s.woken - {who}));
    } else {
      DropFromEmpty(s.ring);
      assert |s'.delivered + Contents(s'.ring)| > |s.delivered + Contents(s.ring)|;
    }
  }

  /** Delivered followed by held is accepted, in send order. */
  ghost predicate InOrder(s: System) {
    s.ring.Valid() && s.delivered + Contents(s.ring) == s.accepted
  }

  /** A woken receiver finds a message, and a reset finds none. */
  predicate Harmless(s: System, e: Event)
    requires s.ring.Valid()
  {
    match e
    case Wake(_) => Count(s.ring) > 0
    case Reset => Count(s.ring) == 0
    case _ => true
  }

  /** Of all steps, of any number of senders and receivers, exactly the harmless ones keep the order. */
  lemma StepInOrder(s: System, e: Event, s': System)
    requires InOrder(s) && Next(s, e, s')
    ensures InOrder(s') <==> Harmless(s, e)
  {
    hide Contents, Count, Store, Drop;
    match e
    case Send(slot) =>
      if Count(s.ring) != s.ring.Capacity() {
        StoreKeeps(s, slot);
      }
    case Recv(_, _) =>
      if Count(s.ring) > 0 {
        DeliverKeeps(s);
      }
    case Wake(who) => WakeIsFifo(s, who, s');
    case Reset => ResetLoses(s, s');
    case _ =>
  }

  /** A reset keeps the order exactly if it finds nothing to lose. */
  lemma ResetLoses(s: System, s': System)
    requires InOrder(s) && Next(s, Reset, s')
    ensures InOrder(s') <==> Count(s.ring) == 0
  {
    hide Contents, Count;
    NothingHeld(s'.ring);
    assert |s'.delivered + Contents(s'.ring)| == |s.delivered|;
    assert |s.delivered + Contents(s.ring)| == |s.delivered| + Count(s.ring);
    if Count(s.ring) == 0 {
      assert Contents(s.ring) == [] == Contents(s'.ring);
    }
  }

  /** In every run of any threads, with spurious wake-ups and resets: the order is kept in every
      state exactly if every woken receiver finds a message and every reset finds the ring empty. */
  lemma RunInOrder(ss: seq<System>, es: seq<Event>)
    requires Run(ss, es) && Start(ss[0])
    ensures (forall i | 0 <= i < |ss| :: InOrder(ss[i])) <==> (forall i | 0 <= i < |es| :: Harmless(ss[i], es[i]))
  {
    hide InOrder, Harmless, Next, Start;
    if forall i | 0 <= i < |es| :: Harmless(ss[i], es[i]) {
      forall i | 0 <= i < |ss| ensures InOrder(ss[i]) {
        InOrderUpTo(ss, es, i);
      }
    } else if forall i | 0 <= i < |ss| :: InOrder(ss[i]) {
      forall i | 0 <= i < |es| ensures Harmless(ss[i], es[i]) {
        StepInOrder(ss[i], es[i], ss[i + 1]);
      }
    }
  }

  lemma {:induction false} InOrderUpTo(ss: seq<System>, es: seq<Event>, n: nat)
    requires Run(ss, es) && Start(ss[0]) && n < |ss| && forall i | 0 <= i < |es| :: Harmless(ss[i], es[i])
    ensures InOrder(ss[n])
  {
    hide InOrder, Harmless, Next, Start;
    if n == 0 {
      StartInOrder(ss[0]);
    } else {
      InOrderUpTo(ss, es, n - 1);
      StepInOrder(ss[n - 1], es[n - 1], ss[n]);
    }
  }

  lemma StartInOrder(s: System)
    requires Start(s)
    ensures InOrder(s)
  {
    assert Contents(s.ring) == [];
  }

  /** A message that wakes the receiver waiting for it. */
  lemma SendWakes()
    ensures Next(Small(0, 0, {0}, {}, [], []), Send([7]), Small(0, 1, {}, {0}, [[7]], []))
  {
    var s, s' := Small(0, 0, {0}, {}, [], []), Small(0, 1, {}, {0}, [[7]], []);
    assert s.ring.pool[0 := [7]] == s.ring.pool;
    var mid := Small(0, 1, {0}, {}, [[7]], []);
    assert 0 in mid.waiting && s' == mid.(waiting := mid.waiting - {0}, woken := mid.woken + {0});
    assert Signalled(mid, s');
  }

  /** An empty queue of capacity one, and what becomes of it. */
  function Small(head: nat, tail: nat, waiting: set<nat>, woken: set<nat>, a: seq<seq<byte>>, d: seq<seq<byte>>): System {
    System(Ring([[7], [9]], head, tail), waiting, woken, a, d)
  }

  /** Two receivers: the second takes the message for which the first was woken. */
  lemma TwoReceivers() returns (ss: seq<System>, es: seq<Event>)
    ensures Run(ss, es) && Start(ss[0]) && (forall e <- es :: e.Recv? || Disciplined(e))
    ensures ss[|es|].delivered == [[7], [9]] && ss[|es|].accepted == [[7]]
  {
    es := [Recv(0, true), Send([7]), Recv(1, true), Wake(0)];
    ss := [Small(0, 0, {}, {}, [], []), Small(0, 0, {0}, {}, [], []), Small(0, 1, {}, {0}, [[7]], []),
           Small(1, 1, {}, {0}, [[7]], [[7]]), Small(0, 1, {}, {}, [[7]], [[7], [9]])];
    SendWakes();
    hide Signalled;
    assert Next(ss[0], es[0], ss[1]);
    assert Next(ss[2], es[2], ss[3]);
    assert Next(ss[3], es[3], ss[4]);
  }

  /** A wake-up that no signal caused: a stale slot is delivered. */
  lemma SpuriousWakeUp() returns (ss: seq<System>, es: seq<Event>)
    ensures Run(ss, es) && Start(ss[0]) && (forall e <- es :: e.Spurious? || Disciplined(e))
    ensures ss[|es|].delivered == [[7]] && ss[|es|].accepted == []
  {
    es := [Recv(0, true), Spurious(0), Wake(0)];
    ss := [Small(0, 0, {}, {}, [], []), Small(0, 0, {0}, {}, [], []), Small(0, 0, {}, {0}, [], []), Small(1, 0, {}, {}, [], [[7]])];
    assert Next(ss[0], es[0], ss[1]);
    assert Next(ss[1], es[1], ss[2]);
    assert Next(ss[2], es[2], ss[3]);
  }

  /** A reset while a woken receiver waits for the mutex loses the message and delivers a slot of
      an empty queue. */
  lemma ResetInBetween() returns (ss: seq<System>, es: seq<Event>)
    ensures Run(ss, es) && Start(ss[0]) && (forall e <- es :: e.Reset? || Disciplined(e))
    ensures |es| == 4 && Count(ss[3].ring) == 0 && es[3] == Wake(0)
    ensures Count(ss[4].ring) == 1 && ss[4].delivered == ss[4].accepted
  {
    es := [Recv(0, true), Send([7]), Reset, Wake(0)];
    ss := [Small(0, 0, {}, {}, [], []), Small(0, 0, {0}, {}, [], []), Small(0, 1, {}, {0}, [[7]], []),
           Small(0, 0, {}, {0}, [[7]], []), Small(1, 0, {}, {}, [[7]], [[7]])];
    SendWakes();
    hide Signalled;
    assert Next(ss[0], es[0], ss[1]);
    assert Next(ss[2], es[2], ss[3]);
    assert Next(ss[3], es[3], ss[4]);
  }
}
