/**
 The queue of accepted sockets between the master thread and the worker threads of mongoose, and the
 protocol of its two condition variables before shutdown (stop_flag == 0).
 */
module SocketQueue {
  import opened Wrappers

  const CAPACITY := 20

  /** struct socket, reduced to its identity. */
  type Socket = int

  datatype Ring = Ring(slots: seq<Socket>, head: int, tail: int)

  predicate ValidRing(r: Ring) {
    |r.slots| == CAPACITY && 0 <= r.tail <= CAPACITY && r.tail <= r.head <= r.tail + CAPACITY
  }

  /** The queued sockets, oldest first. */
  function Contents(r: Ring): (q: seq<Socket>)
    requires ValidRing(r)
    ensures |q| == r.head - r.tail
  {
    seq(r.head - r.tail, i requires 0 <= i < r.head - r.tail => r.slots[(r.tail + i) % CAPACITY])
  }

  /** The loop that wraps the two positions. */
  function Wrap(head: int, tail: int): (int, int)
    decreases tail
  {
    if tail > CAPACITY then Wrap(head - CAPACITY, tail - CAPACITY) else (head, tail)
  }

  function Put(r: Ring, s: Socket): Ring
    requires ValidRing(r)
  {
    r.(slots := r.slots[r.head % CAPACITY := s], head := r.head + 1)
  }

  function Take(r: Ring): Ring {
    var (head, tail) := Wrap(r.head, r.tail + 1);
    r.(head := head, tail := tail)
  }

  lemma PutAppends(r: Ring, s: Socket)
    requires ValidRing(r) && |Contents(r)| < CAPACITY
    ensures ValidRing(Put(r, s)) && Contents(Put(r, s)) == Contents(r) + [s]
  {
    var q, q' := Contents(r), Contents(Put(r, s));
    forall i | 0 <= i < |q|
      ensures q'[i] == q[i]
    {
      assert (r.tail + i) % CAPACITY != r.head % CAPACITY;
    }
  }

  lemma TakeRemoves(r: Ring)
    requires ValidRing(r) && Contents(r) != []
    ensures r.slots[r.tail % CAPACITY] == Contents(r)[0]
    ensures ValidRing(Take(r)) && Contents(Take(r)) == Contents(r)[1..]
  {
    if r.tail + 1 > CAPACITY {
      assert Wrap(r.head, r.tail + 1) == (r.head - CAPACITY, r.tail + 1 - CAPACITY);
    }
    var t := Take(r);
    forall i | 0 <= i < |Contents(t)|
      ensures Contents(t)[i] == Contents(r)[i + 1]
    {
      assert (t.tail + i) % CAPACITY == (r.tail + (i + 1)) % CAPACITY;
    }
  }

  class Queue {
    var queue: array<Socket>
    var sqHead: int
    var sqTail: int

    function Abs(): Ring
      reads this, queue
    {
      Ring(queue[..], sqHead, sqTail)
    }

    ghost predicate Valid()
      reads this, queue
    {
      ValidRing(Abs())
    }

    constructor ()
      ensures Valid() && Contents(Abs()) == [] && fresh(queue)
    {
      queue := new Socket[CAPACITY](_ => 0);
      sqHead, sqTail := 0, 0;
    }

    /** The critical section of produce_socket up to its next wait: false means that it waits on sq_empty. */
    method Produce(s: Socket) returns (queued: bool)
      requires Valid()
      modifies this`sqHead, queue
      ensures Valid() && queue == old(queue)
      ensures queued == (|old(Contents(Abs()))| < CAPACITY)
      ensures Abs() == if queued then Put(old(Abs()), s) else old(Abs())
      ensures Contents(Abs()) == if queued then old(Contents(Abs())) + [s] else old(Contents(Abs()))
    {
      if sqHead - sqTail >= CAPACITY {
        return false;
      }
      PutAppends(Abs(), s);
      queue[sqHead % CAPACITY] := s;
      sqHead := sqHead + 1;
      assert Abs() == Put(old(Abs()), s);
      return true;
    }

    /** The critical section of consume_socket up to its next wait: None means that it waits on sq_full. */
    method Consume() returns (r: Option<Socket>)
      requires Valid()
      modifies this`sqHead, this`sqTail
      ensures Valid()
      ensures r.None? <==> old(Contents(Abs())) == []
      ensures r.None? ==> Abs() == old(Abs())
      ensures r.Some? ==> Abs() == Take(old(Abs()))
      ensures r.Some? ==> old(Contents(Abs())) == [r.value] + Contents(Abs())
    {
      if sqHead == sqTail {
        return None;
      }
      TakeRemoves(Abs());
      r := Some(queue[sqTail % CAPACITY]);
      sqTail := sqTail + 1;
      while sqTail > CAPACITY
        invariant Wrap(sqHead, sqTail) == Wrap(old(sqHead), old(sqTail) + 1)
        decreases sqTail
      {
        sqTail := sqTail - CAPACITY;
        sqHead := sqHead - CAPACITY;
      }
      assert Abs() == Take(old(Abs()));
    }
  }

  // ------------------------------------------------------------ the protocol

  /** Asleep: waiting on sq_full and not signalled. Woken: signalled (or woken spuriously) and about to check
      the queue again. Busy: outside consume_socket. */
  datatype Worker = Busy | Asleep | Woken

  /** The producer, with the socket it is trying to queue. */
  datatype Producer = Idle | Waiting(sock: Socket) | Signalled(sock: Socket)

  datatype Pool = Pool(ring: Ring, producer: Producer, workers: seq<Worker>,
                       accepted: seq<Socket>, handed: seq<Socket>)

  /** What happens next. The mutex makes each of them one step; Signal tells which sleeping workers
      pthread_cond_signal wakes. */
  datatype Event =
    | Accept(sock: Socket, wakes: set<nat>)   // the master enters produce_socket
    | Retry(wakes: set<nat>)                  // the signalled producer checks again
    | Check(worker: nat)                      // a worker enters consume_socket or checks again
    | Spurious(worker: nat)                   // a sleeping worker wakes up without a signal
    | SpuriousProducer                        // and so does the producer

  predicate SomeAsleep(ws: seq<Worker>) {
    exists i :: 0 <= i < |ws| && ws[i] == Asleep
  }

  function Wake(ws: seq<Worker>, wakes: set<nat>): (r: seq<Worker>)
    ensures |r| == |ws|
  {
    seq(|ws|, i requires 0 <= i < |ws| => if i in wakes && ws[i] == Asleep then Woken else ws[i])
  }

  /** pthread_cond_signal unblocks at least one of the threads that are blocked, if there is any. */
  predicate LegalSignal(ws: seq<Worker>, wakes: set<nat>) {
    SomeAsleep(ws) ==> exists i :: i in wakes && i < |ws| && ws[i] == Asleep
  }

  /** The producer finds the queue full, or queues its socket and signals sq_full. */
  predicate Produced(s: Pool, sock: Socket, wakes: set<nat>, t: Pool)
    requires ValidRing(s.ring)
  {
    if |Contents(s.ring)| >= CAPACITY then
      t.ring == s.ring && t.producer == Waiting(sock) && t.workers == s.workers
    else
      t.ring == Put(s.ring, sock) && t.producer == Idle
      && LegalSignal(s.workers, wakes) && t.workers == Wake(s.workers, wakes)
  }

  predicate Step(s: Pool, e: Event, t: Pool) {
    ValidRing(s.ring) &&
    match e
    case Accept(sock, wakes) =>
      s.producer == Idle && Produced(s, sock, wakes, t)
      && t.accepted == s.accepted + [sock] && t.handed == s.handed
    case Retry(wakes) =>
      s.producer.Signalled? && Produced(s, s.producer.sock, wakes, t)
      && t.accepted == s.accepted && t.handed == s.handed
    case Check(i) =>
      && i < |s.workers| && s.workers[i] != Asleep && t.accepted == s.accepted
      && (if Contents(s.ring) == [] then
            t == s.(workers := s.workers[i := Asleep])
          else
            t.ring == Take(s.ring) && t.workers == s.workers[i := Busy]
            && t.handed == s.handed + [s.ring.slots[s.ring.tail % CAPACITY]]
            && t.producer == if s.producer.Waiting? then Signalled(s.producer.sock) else s.producer)
    case Spurious(i) =>
      i < |s.workers| && s.workers[i] == Asleep && t == s.(workers := s.workers[i := Woken])
    case SpuriousProducer =>
      s.producer.Waiting? && t == s.(producer := Signalled(s.producer.sock))
  }

  predicate Init(s: Pool) {
    && ValidRing(s.ring) && Contents(s.ring) == [] && s.producer == Idle
    && (forall i | 0 <= i < |s.workers| :: s.workers[i] == Busy)
    && s.accepted == [] && s.handed == []
  }

  function WokenSet(ws: seq<Worker>): set<int> {
    set i | 0 <= i < |ws| && ws[i] == Woken
  }

  function Pending(p: Producer): seq<Socket> {
    if p.Idle? then [] else [p.sock]
  }

  ghost predicate Inv(s: Pool) {
    && ValidRing(s.ring)
    // a sleeping worker is never needed: enough woken ones are on their way
    && (SomeAsleep(s.workers) ==> |Contents(s.ring)| <= |WokenSet(s.workers)|)
    // the producer sleeps only in front of a full queue
    && (s.producer.Waiting? ==> |Contents(s.ring)| == CAPACITY)
    // every accepted socket is handed over once, in order, or still queued or pending
    && s.accepted == s.handed + Contents(s.ring) + Pending(s.producer)
  }

  lemma WakeAddsOne(ws: seq<Worker>, wakes: set<nat>)
    requires LegalSignal(ws, wakes) && SomeAsleep(Wake(ws, wakes))
    ensures SomeAsleep(ws) && |WokenSet(Wake(ws, wakes))| >= |WokenSet(ws)| + 1
  {
    var ws' := Wake(ws, wakes);
    var j :| 0 <= j < |ws'| && ws'[j] == Asleep;
    assert ws[j] == Asleep;
    var i :| i in wakes && i < |ws| && ws[i] == Asleep;
    assert WokenSet(ws) + {i} <= WokenSet(ws');
    SubsetCard(WokenSet(ws) + {i}, WokenSet(ws'));
  }

  lemma SubsetCard(a: set<int>, b: set<int>)
    requires a <= b
    ensures |a| <= |b|
  {
    assert b == a + (b - a);
  }

  lemma ChangeOneSet(ws: seq<Worker>, i: nat, w: Worker)
    requires i < |ws|
    ensures WokenSet(ws[i := w]) == if w == Woken then WokenSet(ws) + {i} else WokenSet(ws) - {i}
    ensures i in WokenSet(ws) <==> ws[i] == Woken
  {
  }

  lemma ChangeOne(ws: seq<Worker>, i: nat, w: Worker)
    requires i < |ws|
    ensures |WokenSet(ws[i := w])| >= |WokenSet(ws)| - (if ws[i] == Woken then 1 else 0)
    ensures w == Busy && SomeAsleep(ws[i := w]) ==> SomeAsleep(ws)
  {
    ChangeOneSet(ws, i, w);
    var woken := WokenSet(ws);
    SubsetCard(woken, woken + {i});
    if ws[i] != Woken {
      assert woken - {i} == woken;
    }
    if w == Busy && SomeAsleep(ws[i := w]) {
      var j :| 0 <= j < |ws| && ws[i := w][j] == Asleep;
      assert ws[j] == Asleep;
    }
  }

  lemma ProducedKeepsInv(s: Pool, sock: Socket, wakes: set<nat>, t: Pool)
    requires ValidRing(s.ring) && Produced(s, sock, wakes, t)
    requires SomeAsleep(s.workers) ==> |Contents(s.ring)| <= |WokenSet(s.workers)|
    requires t.accepted == s.handed + Contents(s.ring) + [sock] && t.handed == s.handed
    ensures Inv(t)
  {
    if |Contents(s.ring)| < CAPACITY {
      PutAppends(s.ring, sock);
      assert t.handed + (Contents(s.ring) + [sock]) + [] == t.handed + Contents(s.ring) + [sock];
      if SomeAsleep(t.workers) {
        WakeAddsOne(s.workers, wakes);
      }
    }
  }

  lemma TakeKeepsInv(s: Pool, i: nat, t: Pool)
    requires Inv(s) && Step(s, Check(i), t) && Contents(s.ring) != []
    ensures Inv(t)
  {
    TakeRemoves(s.ring);
    ChangeOne(s.workers, i, Busy);
    var q := Contents(s.ring);
    assert q == [q[0]] + q[1..];
    Regroup(s.handed, q[0], q[1..], Pending(s.producer));
  }

  lemma Regroup(a: seq<Socket>, x: Socket, b: seq<Socket>, c: seq<Socket>)
    ensures a + ([x] + b) + c == (a + [x]) + b + c
  {
  }

  lemma StepKeepsInv(s: Pool, e: Event, t: Pool)
    requires Inv(s) && Step(s, e, t)
    ensures Inv(t)
  {
    match e
    case Accept(sock, wakes) =>
      assert s.handed + Contents(s.ring) + [] == s.handed + Contents(s.ring);
      ProducedKeepsInv(s, sock, wakes, t);
    case Retry(wakes) => ProducedKeepsInv(s, s.producer.sock, wakes, t);
    case Check(i) =>
      if Contents(s.ring) != [] {
        TakeKeepsInv(s, i, t);
      }
    case Spurious(i) => ChangeOne(s.workers, i, Woken);
    case SpuriousProducer =>
  }

  /** A run: states joined by steps, from an initial one. */
  ghost predicate IsRun(run: seq<Pool>, events: seq<Event>) {
    && |run| == |events| + 1 && Init(run[0])
    && forall i | 0 <= i < |events| :: Step(run[i], events[i], run[i + 1])
  }

  lemma {:induction false} RunKeepsInv(run: seq<Pool>, events: seq<Event>, k: nat)
    requires IsRun(run, events) && k < |run|
    ensures Inv(run[k])
  {
    if k == 0 {
      assert run[0].handed + Contents(run[0].ring) + [] == [];
    } else {
      RunKeepsInv(run, events, k - 1);
      StepKeepsInv(run[k - 1], events[k - 1], run[k]);
    }
  }

  /** No wake-up is lost: in every interleaving, while a worker sleeps unsignalled the number of queued
      sockets is at most the number of woken workers that have not checked again, and a producer that
      sleeps unsignalled faces a full queue. So the pool never comes to rest with work left: a queued socket
      has a worker that is awake, and the producer and the workers never all sleep. */
  lemma NoLostWakeUp(run: seq<Pool>, events: seq<Event>, k: nat)
    requires IsRun(run, events) && k < |run|
    ensures var s := run[k];
      && ValidRing(s.ring)
      && (SomeAsleep(s.workers) ==> |Contents(s.ring)| <= |WokenSet(s.workers)|)
      && (s.producer.Waiting? ==> |Contents(s.ring)| == CAPACITY)
      && (Contents(s.ring) != [] && s.workers != [] ==> exists i :: 0 <= i < |s.workers| && s.workers[i] != Asleep)
  {
    RunKeepsInv(run, events, k);
    if Contents(run[k].ring) != [] && run[k].workers != [] {
      SomeoneIsAwake(run[k]);
    }
  }

  lemma SomeoneIsAwake(s: Pool)
    requires Inv(s) && Contents(s.ring) != [] && s.workers != []
    ensures exists i :: 0 <= i < |s.workers| && s.workers[i] != Asleep
  {
    if SomeAsleep(s.workers) {
      assert WokenSet(s.workers) != {};
      var i :| i in WokenSet(s.workers);
      assert s.workers[i] != Asleep;
    } else {
      assert s.workers[0] != Asleep;
    }
  }

  /** Conservation: every accepted socket is handed to a worker exactly once and in the order of acceptance,
      or it is still queued, or the producer is still holding it. */
  lemma SocketsAreConserved(run: seq<Pool>, events: seq<Event>, k: nat)
    requires IsRun(run, events) && k < |run|
    ensures ValidRing(run[k].ring)
    ensures run[k].accepted == run[k].handed + Contents(run[k].ring) + Pending(run[k].producer)
  {
    RunKeepsInv(run, events, k);
  }

  // ------------------------------------------------------------ progress

  /** A worker that finds a socket. */
  predicate Serves(s: Pool, e: Event) {
    e.Check? && s.ring.head != s.ring.tail
  }

  /** How many of the first n events of a run are of that kind. */
  function Served(run: seq<Pool>, events: seq<Event>, n: nat): nat
    requires n <= |events| < |run|
  {
    if n == 0 then 0 else Served(run, events, n - 1) + (if Serves(run[n - 1], events[n - 1]) then 1 else 0)
  }

  lemma ServesOne(s: Pool, e: Event, t: Pool)
    requires Step(s, e, t)
    ensures if Serves(s, e) then Contents(s.ring) != [] && t.handed == s.handed + [Contents(s.ring)[0]]
            else t.handed == s.handed
  {
    if Serves(s, e) {
      TakeRemoves(s.ring);
    }
  }

  /** Every check of a worker that finds the queue not empty hands over one socket, the oldest that has not been
      handed over, and nothing else does: after n such checks the first n sockets accepted have been handed over. */
  lemma ServedInOrder(run: seq<Pool>, events: seq<Event>, k: nat)
    requires IsRun(run, events) && k < |run|
    ensures Served(run, events, k) <= |run[k].accepted|
    ensures run[k].handed == run[k].accepted[..Served(run, events, k)]
  {
    RunKeepsInv(run, events, k);
    ServedCount(run, events, k);
    var s := run[k];
    assert s.accepted == s.handed + (Contents(s.ring) + Pending(s.producer));
  }

  lemma {:induction false} ServedCount(run: seq<Pool>, events: seq<Event>, k: nat)
    requires IsRun(run, events) && k < |run|
    ensures |run[k].handed| == Served(run, events, k)
  {
    if k > 0 {
      ServedCount(run, events, k - 1);
      ServesOne(run[k - 1], events[k - 1], run[k]);
    }
  }

  /** Checks of awake workers, one after the other, can hand over all of the queue. */
  ghost predicate CanBeServed(s: Pool, n: nat)
    requires ValidRing(s.ring)
    decreases n
  {
    if n == 0 then Contents(s.ring) == []
    else
      exists i: nat, t: Pool ::
        && Step(s, Check(i), t) && Serves(s, Check(i)) && ValidRing(t.ring) && CanBeServed(t, n - 1)
  }

  /** Progress: in every state of every run the workers can empty the queue without any further wake-up. */
  lemma QueueCanBeServed(run: seq<Pool>, events: seq<Event>, k: nat)
    requires IsRun(run, events) && k < |run| && run[k].workers != []
    ensures ValidRing(run[k].ring) && CanBeServed(run[k], |Contents(run[k].ring)|)
  {
    RunKeepsInv(run, events, k);
    InvCanBeServed(run[k]);
  }

  lemma {:induction false} InvCanBeServed(s: Pool)
    requires Inv(s) && s.workers != []
    ensures CanBeServed(s, |Contents(s.ring)|)
    decreases |Contents(s.ring)|
  {
    if Contents(s.ring) != [] {
      var t := ServeNext(s);
      InvCanBeServed(t);
    }
  }

  lemma ServeNext(s: Pool) returns (t: Pool)
    requires Inv(s) && s.workers != [] && Contents(s.ring) != []
    ensures Inv(t) && t.workers != [] && |Contents(t.ring)| == |Contents(s.ring)| - 1
    ensures forall n: nat :: CanBeServed(t, n) ==> CanBeServed(s, n + 1)
  {
    SomeoneIsAwake(s);
    var i: nat :| i < |s.workers| && s.workers[i] != Asleep;
    t := AfterCheck(s, i);
    StepKeepsInv(s, Check(i), t);
    forall n: nat | CanBeServed(t, n)
      ensures CanBeServed(s, n + 1)
    {
      OneServed(s, i, t, n);
    }
  }

  lemma OneServed(s: Pool, i: nat, t: Pool, n: nat)
    requires Step(s, Check(i), t) && Serves(s, Check(i)) && ValidRing(t.ring) && CanBeServed(t, n)
    ensures CanBeServed(s, n + 1)
  {
  }

  function AfterCheck(s: Pool, i: nat): (t: Pool)
    requires ValidRing(s.ring) && Contents(s.ring) != [] && i < |s.workers| && s.workers[i] != Asleep
    ensures Step(s, Check(i), t) && Serves(s, Check(i))
    ensures ValidRing(t.ring) && |Contents(t.ring)| == |Contents(s.ring)| - 1 && |t.workers| == |s.workers|
  {
    TakeRemoves(s.ring);
    Pool(Take(s.ring), if s.producer.Waiting? then Signalled(s.producer.sock) else s.producer, s.workers[i := Busy],
         s.accepted, s.handed + [s.ring.slots[s.ring.tail % CAPACITY]])
  }
}
