/** The asynchronous logging queue and the shutdown protocol of its worker pool, as an interleaving of atomic steps. */
module ThreadPool {
  import opened CircularQueue

  datatype Message = Log(id: nat) | Flush(id: nat) | Terminate

  /** The blocking queue: each method is one critical section, entered when its guard holds. */
  class BlockingQueue {
    const q: CircularQueue<Message>

    constructor (maxItems: nat)
      ensures q.Valid() && fresh(q) && fresh(q.v) && q.maxItems == maxItems + 1 && q.Contents() == []
    {
      q := new CircularQueue(maxItems);
    }

    method Enqueue(item: Message)
      requires q.Valid() && q.maxItems > 0 && |q.Contents()| < q.Capacity()
      modifies q, q.v
      ensures q.Valid() && q.maxItems == old(q.maxItems) && q.v == old(q.v)
      ensures q.Contents() == old(q.Contents()) + [item] && q.overrunCounter == old(q.overrunCounter)
    {
      q.PushBack(item);
    }

    method EnqueueNowait(item: Message)
      requires q.Valid() && q.maxItems > 0
      modifies q, q.v
      ensures q.Valid() && q.maxItems == old(q.maxItems) && q.v == old(q.v)
      ensures q.Contents() == Pushed(old(q.Contents()), q.Capacity(), item)
      ensures q.overrunCounter == old(q.overrunCounter) + if |old(q.Contents())| < q.Capacity() then 0 else 1
    {
      q.PushBack(item);
    }

    /** Returns false after the time-out, which needs the queue to be empty then. */
    method DequeueFor() returns (dequeued: bool, item: Message)
      requires q.Valid()
      modifies q
      ensures q.Valid() && q.maxItems == old(q.maxItems) && q.v == old(q.v) && q.overrunCounter == old(q.overrunCounter)
      ensures dequeued <==> old(q.Contents()) != []
      ensures if dequeued then [item] + q.Contents() == old(q.Contents()) else q.Contents() == old(q.Contents())
    {
      var empty := q.Empty();
      if empty { return false, Terminate; }
      item := q.Front();
      q.PopFront();
      dequeued := true;
    }
  }

  datatype Worker = Idle | Handling(msg: Message) | Exited

  /** How a message left the queue: taken by a worker or overrun by a newer message. */
  datatype Removal = Popped(msg: Message) | Overrun(msg: Message)

  /** toPost counts the terminate messages the destructor still has to post; it only runs when destroying. */
  datatype Pool = Pool(
    capacity: nat,
    queue: seq<Message>,
    workers: seq<Worker>,
    destroying: bool,
    toPost: nat,
    accepted: seq<Message>,
    removed: seq<Removal>,
    handled: seq<Message>)

  function Start(capacity: nat, n: nat): Pool {
    Pool(capacity, [], seq(n, _ => Idle), false, n, [], [], [])
  }

  datatype Step =
    | Post(msg: Message)
    | PostNowait(msg: Message)
    | BeginDestroy
    | PostTerminate
    | Timeout(w: nat)
    | Dequeue(w: nat)
    | Handle(w: nat)

  /** Loggers hold the pool alive, so they post only before its destructor runs. */
  predicate Enabled(p: Pool, step: Step) {
    match step
    case Post(m) => !p.destroying && !m.Terminate? && |p.queue| < p.capacity
    case PostNowait(m) => !p.destroying && !m.Terminate?
    case BeginDestroy => !p.destroying
    case PostTerminate => p.destroying && p.toPost > 0 && |p.queue| < p.capacity
    case Timeout(w) => w < |p.workers| && p.workers[w].Idle? && p.queue == []
    case Dequeue(w) => w < |p.workers| && p.workers[w].Idle? && p.queue != []
    case Handle(w) => w < |p.workers| && p.workers[w].Handling?
  }

  function Next(p: Pool, step: Step): Pool
    requires Enabled(p, step)
  {
    match step
    case Post(m) => p.(queue := p.queue + [m], accepted := p.accepted + [m])
    case PostNowait(m) =>
      p.(queue := Pushed(p.queue, p.capacity, m), accepted := p.accepted + [m],
         removed := if |p.queue| < p.capacity then p.removed else p.removed + [Overrun((p.queue + [m])[0])])
    case BeginDestroy => p.(destroying := true)
    case PostTerminate =>
      p.(queue := p.queue + [Terminate], accepted := p.accepted + [Terminate], toPost := p.toPost - 1)
    case Timeout(w) => p
    case Dequeue(w) =>
      var m := p.queue[0];
      p.(queue := p.queue[1..], removed := p.removed + [Popped(m)],
         workers := p.workers[w := if m.Terminate? then Exited else Handling(m)])
    case Handle(w) =>
      p.(workers := p.workers[w := Idle], handled := p.handled + [p.workers[w].msg])
  }

  // The methods of the pool, as the steps they take.

  /** The queue of the pool is stored in this blocking queue. */
  ghost predicate Stored(b: BlockingQueue, p: Pool)
    reads b, b.q, b.q.v
  {
    && b.q.Valid() && b.q.maxItems > 0 && b.q.Contents() == p.queue && b.q.Capacity() == p.capacity
    && b.q.overrunCounter == Overruns(p.removed)
  }

  function PostStep(msg: Message, block: bool): Step {
    if msg.Terminate? then PostTerminate else if block then Post(msg) else PostNowait(msg)
  }

  /**
   * A blocking post has waited for room, and appends; any other appends at once, at the cost of the oldest
   * message when there is no room. Either is one step of the machine. Only the destructor posts terminates.
   */
  method PostAsyncMsg(b: BlockingQueue, msg: Message, block: bool, ghost p: Pool)
    requires Stored(b, p) && (block ==> |p.queue| < p.capacity)
    requires if msg.Terminate? then block && p.destroying && p.toPost > 0 else !p.destroying
    modifies b.q, b.q.v
    ensures b.q.Valid()
    ensures block || |old(b.q.Contents())| < b.q.Capacity()
            ==> b.q.Contents() == old(b.q.Contents()) + [msg] && b.q.overrunCounter == old(b.q.overrunCounter)
    ensures !block && |old(b.q.Contents())| == b.q.Capacity()
            ==> b.q.Contents() == (old(b.q.Contents()) + [msg])[1..]
                && b.q.overrunCounter == old(b.q.overrunCounter) + 1
    ensures Enabled(p, PostStep(msg, block)) && Stored(b, Next(p, PostStep(msg, block)))
  {
    if block {
      b.Enqueue(msg);
    } else {
      SnocRemoved(p.removed, Overrun((p.queue + [msg])[0]));
      b.EnqueueNowait(msg);
    }
  }

  /** Under either policy a logger can post to any pool that is not being destroyed; with the first it needs room. */
  lemma PostableIff(p: Pool, msg: Message)
    requires !p.destroying && !msg.Terminate?
    ensures Enabled(p, PostStep(msg, false))
    ensures Enabled(p, PostStep(msg, true)) <==> |p.queue| < p.capacity
  {}

  /** What a worker does with the next message: a time-out, or a dequeue followed, unless it ends there, by the handling. */
  ghost function Processed(p: Pool, w: nat): Pool
    requires w < |p.workers| && p.workers[w].Idle?
  {
    if p.queue == [] then Next(p, Timeout(w))
    else
      var p' := Next(p, Dequeue(w));
      if p'.workers[w].Handling? then Next(p', Handle(w)) else p'
  }

  lemma ProcessedIs(p: Pool, w: nat)
    requires w < |p.workers| && p.workers[w].Idle?
    ensures var p' := Processed(p, w);
            && p'.capacity == p.capacity && p'.queue == (if p.queue == [] then [] else p.queue[1..])
            && Overruns(p'.removed) == Overruns(p.removed)
            && (p'.workers[w].Exited? <==> p.queue != [] && p.queue[0].Terminate?)
            && p'.handled == p.handled + if p.queue != [] && !p.queue[0].Terminate? then [p.queue[0]] else []
  {
    if p.queue != [] { SnocRemoved(p.removed, Popped(p.queue[0])); }
  }

  /**
   * Takes the oldest message, if there is one, and handles it unless it is the end. Returns whether the worker
   * goes on, and the message it has handled.
   */
  method ProcessNextMsg(b: BlockingQueue, w: nat, ghost p: Pool) returns (active: bool, handled: seq<Message>)
    requires Stored(b, p) && w < |p.workers| && p.workers[w].Idle?
    modifies b.q
    ensures b.q.Valid()
    ensures var was := old(b.q.Contents());
            && (active <==> !(was != [] && was[0].Terminate?))
            && handled == (if was != [] && !was[0].Terminate? then [was[0]] else [])
            && b.q.Contents() == if was == [] then [] else was[1..]
    ensures var p' := Processed(p, w);
            Stored(b, p') && (active <==> !p'.workers[w].Exited?) && p'.handled == p.handled + handled
  {
    ProcessedIs(p, w);
    var dequeued, msg := b.DequeueFor();
    assert p.queue != [] ==> p.queue == [msg] + b.q.Contents();
    if !dequeued { return true, []; }
    match msg
    case Terminate => return false, [];
    case _ => return true, [msg];
  }

  ghost predicate Legal(p: Pool, steps: seq<Step>)
    decreases |steps|
  {
    steps == [] || (Enabled(p, steps[0]) && Legal(Next(p, steps[0]), steps[1..]))
  }

  ghost function Exec(p: Pool, steps: seq<Step>): Pool
    requires Legal(p, steps)
    decreases |steps|
  {
    if steps == [] then p else Exec(Next(p, steps[0]), steps[1..])
  }

  /** The destructor has joined every worker. */
  predicate Final(p: Pool) {
    p.destroying && p.toPost == 0 && forall w :: 0 <= w < |p.workers| ==> p.workers[w].Exited?
  }

  function Live(ws: seq<Worker>): nat {
    if ws == [] then 0 else Live(ws[..|ws| - 1]) + if ws[|ws| - 1].Exited? then 0 else 1
  }

  function Terminates(q: seq<Message>): nat {
    if q == [] then 0 else Terminates(q[..|q| - 1]) + if q[|q| - 1].Terminate? then 1 else 0
  }

  function Hand(x: Worker): multiset<Message> {
    if x.Handling? then multiset{x.msg} else multiset{}
  }

  function InHand(ws: seq<Worker>): multiset<Message> {
    if ws == [] then multiset{} else InHand(ws[..|ws| - 1]) + Hand(ws[|ws| - 1])
  }

  function Items(rs: seq<Removal>): (ms: seq<Message>)
    ensures |ms| == |rs|
  {
    if rs == [] then [] else Items(rs[..|rs| - 1]) + [rs[|rs| - 1].msg]
  }

  /** The log and flush messages taken by workers, in the order they were taken. */
  function Taken(rs: seq<Removal>): seq<Message> {
    if rs == [] then []
    else
      var r := rs[|rs| - 1];
      Taken(rs[..|rs| - 1]) + if r.Popped? && !r.msg.Terminate? then [r.msg] else []
  }

  function TerminatesTaken(rs: seq<Removal>): nat {
    if rs == [] then 0 else TerminatesTaken(rs[..|rs| - 1]) + if rs[|rs| - 1] == Popped(Terminate) then 1 else 0
  }

  function Overruns(rs: seq<Removal>): nat {
    if rs == [] then 0 else Overruns(rs[..|rs| - 1]) + if rs[|rs| - 1].Overrun? then 1 else 0
  }

  /** Terminate messages are only ever behind log messages, never in front of one. */
  ghost predicate TerminatesLast(q: seq<Message>) {
    forall i, j :: 0 <= i < j < |q| && q[i].Terminate? ==> q[j].Terminate?
  }

  ghost predicate AllTerminates(q: seq<Message>) {
    forall i :: 0 <= i < |q| ==> q[i].Terminate?
  }

  ghost predicate Counts(p: Pool, n: nat) {
    && |p.workers| == n && |p.queue| <= p.capacity
    && Live(p.workers) == Terminates(p.queue) + p.toPost
    && TerminatesTaken(p.removed) + Live(p.workers) == n
    && (!p.destroying ==> p.toPost == n)
  }

  ghost predicate Flow(p: Pool) {
    p.accepted == Items(p.removed) + p.queue
  }

  ghost predicate Hands(p: Pool) {
    multiset(Taken(p.removed)) == multiset(p.handled) + InHand(p.workers)
  }

  ghost predicate Order(p: Pool, n: nat) {
    && TerminatesLast(p.queue)
    && (Live(p.workers) < n ==> AllTerminates(p.queue))
    && (forall r :: r in p.removed && r.Overrun? ==> !r.msg.Terminate?)
  }

  ghost predicate Inv(p: Pool, n: nat) {
    Counts(p, n) && Flow(p) && Hands(p) && Order(p, n)
  }

  // Bookkeeping of one changed worker or one moved message.

  lemma {:induction false} LiveUpdate(ws: seq<Worker>, w: nat, x: Worker)
    requires w < |ws|
    ensures Live(ws[w := x]) == Live(ws) - (if ws[w].Exited? then 0 else 1) + if x.Exited? then 0 else 1
  {
    var n := |ws| - 1;
    if w == n { assert ws[w := x][..n] == ws[..n]; }
    else {
      assert ws[w := x][..n] == ws[..n][w := x];
      LiveUpdate(ws[..n], w, x);
    }
  }

  lemma {:induction false} LiveBound(ws: seq<Worker>)
    ensures Live(ws) <= |ws|
    ensures Live(ws) == |ws| <==> forall w :: 0 <= w < |ws| ==> !ws[w].Exited?
    ensures Live(ws) == 0 <==> forall w :: 0 <= w < |ws| ==> ws[w].Exited?
  {
    if ws != [] {
      var n := |ws| - 1;
      LiveBound(ws[..n]);
      assert forall w :: 0 <= w < n ==> ws[..n][w] == ws[w];
      assert forall w :: 0 <= w < |ws| ==> w == n || ws[w] == ws[..n][w];
    }
  }

  lemma InHandSnoc(ws: seq<Worker>, x: Worker)
    ensures InHand(ws + [x]) == InHand(ws) + Hand(x)
  {
    assert (ws + [x])[..|ws|] == ws;
  }

  lemma {:induction false} InHandUpdate(ws: seq<Worker>, w: nat, x: Worker)
    requires w < |ws|
    ensures InHand(ws[w := x]) + Hand(ws[w]) == InHand(ws) + Hand(x)
  {
    var front, last := ws[..|ws| - 1], ws[|ws| - 1];
    assert ws == front + [last];
    InHandSnoc(front, last);
    if w == |front| {
      assert ws[w := x] == front + [x];
      InHandSnoc(front, x);
      Regroup(InHand(front), Hand(x), Hand(last));
    } else {
      assert ws[w := x] == front[w := x] + [last];
      InHandSnoc(front[w := x], last);
      InHandUpdate(front, w, x);
      Exchange(InHand(front[w := x]), InHand(front), Hand(ws[w]), Hand(x), Hand(last));
    }
  }

  lemma Exchange(a: multiset<Message>, b: multiset<Message>, h: multiset<Message>, x: multiset<Message>,
                 l: multiset<Message>)
    requires a + h == b + x
    ensures (a + l) + h == (b + l) + x
  {
    assert (a + l) + h == (a + h) + l;
    assert (b + l) + x == (b + x) + l;
  }

  lemma {:induction false} InHandNone(ws: seq<Worker>)
    requires forall w :: 0 <= w < |ws| ==> !ws[w].Handling?
    ensures InHand(ws) == multiset{}
  {
    if ws != [] { InHandNone(ws[..|ws| - 1]); }
  }

  lemma SnocQueue(q: seq<Message>, m: Message)
    ensures Terminates(q + [m]) == Terminates(q) + if m.Terminate? then 1 else 0
  {
    assert (q + [m])[..|q|] == q;
  }

  lemma {:induction false} ConsQueue(q: seq<Message>)
    requires q != []
    ensures Terminates(q) == (if q[0].Terminate? then 1 else 0) + Terminates(q[1..])
  {
    var n := |q| - 1;
    if n > 0 {
      ConsQueue(q[..n]);
      assert q[..n][1..] == q[1..][..n - 1];
    }
  }

  lemma {:induction false} CountAll(q: seq<Message>)
    ensures Terminates(q) <= |q|
    ensures AllTerminates(q) ==> Terminates(q) == |q|
    ensures Terminates(q) == 0 ==> forall i :: 0 <= i < |q| ==> !q[i].Terminate?
  {
    if q != [] {
      var n := |q| - 1;
      CountAll(q[..n]);
      assert forall i :: 0 <= i < |q| ==> i == n || q[i] == q[..n][i];
    }
  }

  lemma SnocRemoved(rs: seq<Removal>, r: Removal)
    ensures Items(rs + [r]) == Items(rs) + [r.msg]
    ensures Taken(rs + [r]) == Taken(rs) + if r.Popped? && !r.msg.Terminate? then [r.msg] else []
    ensures TerminatesTaken(rs + [r]) == TerminatesTaken(rs) + if r == Popped(Terminate) then 1 else 0
    ensures Overruns(rs + [r]) == Overruns(rs) + if r.Overrun? then 1 else 0
  {
    assert (rs + [r])[..|rs|] == rs;
  }

  lemma StartInv(capacity: nat, n: nat)
    ensures Inv(Start(capacity, n), n)
  {
    var ws: seq<Worker> := seq(n, _ => Idle);
    LiveBound(ws);
    InHandNone(ws);
  }

  lemma NextCounts(p: Pool, n: nat, step: Step)
    requires Counts(p, n) && Enabled(p, step)
    ensures Counts(Next(p, step), n)
  {
    match step
    case Post(m) => SnocQueue(p.queue, m);
    case PostNowait(m) =>
      var all := p.queue + [m];
      SnocQueue(p.queue, m);
      ConsQueue(all);
      CountAll(all);
      LiveBound(p.workers);
      SnocRemoved(p.removed, Overrun(all[0]));
    case BeginDestroy =>
    case PostTerminate => SnocQueue(p.queue, Terminate);
    case Timeout(w) =>
    case Dequeue(w) =>
      ConsQueue(p.queue);
      LiveUpdate(p.workers, w, if p.queue[0].Terminate? then Exited else Handling(p.queue[0]));
      SnocRemoved(p.removed, Popped(p.queue[0]));
    case Handle(w) => LiveUpdate(p.workers, w, Idle);
  }

  lemma NextFlow(p: Pool, step: Step)
    requires Flow(p) && Enabled(p, step)
    ensures Flow(Next(p, step))
  {
    match step
    case PostNowait(m) =>
      var all := p.queue + [m];
      SnocRemoved(p.removed, Overrun(all[0]));
      Shift(Items(p.removed), all);
      Append(Items(p.removed), p.queue, m);
    case Dequeue(w) =>
      SnocRemoved(p.removed, Popped(p.queue[0]));
      Shift(Items(p.removed), p.queue);
    case Post(m) => Append(Items(p.removed), p.queue, m);
    case PostTerminate => Append(Items(p.removed), p.queue, Terminate);
    case _ =>
  }

  lemma Shift(a: seq<Message>, b: seq<Message>)
    requires b != []
    ensures (a + [b[0]]) + b[1..] == a + b
  {}

  lemma Append(a: seq<Message>, b: seq<Message>, m: Message)
    ensures (a + b) + [m] == a + (b + [m])
  {}

  lemma NextHands(p: Pool, step: Step)
    requires Hands(p) && Enabled(p, step)
    ensures Hands(Next(p, step))
  {
    match step
    case PostNowait(m) => SnocRemoved(p.removed, Overrun((p.queue + [m])[0]));
    case Dequeue(w) => DequeueHands(p, w);
    case Handle(w) => HandleHands(p, w);
    case _ =>
  }

  lemma DequeueHands(p: Pool, w: nat)
    requires Hands(p) && Enabled(p, Dequeue(w))
    ensures Hands(Next(p, Dequeue(w)))
  {
    var m := p.queue[0];
    var x := if m.Terminate? then Exited else Handling(m);
    SnocRemoved(p.removed, Popped(m));
    InHandUpdate(p.workers, w, x);
    assert Hand(p.workers[w]) == multiset{};
    assert InHand(p.workers[w := x]) == InHand(p.workers) + Hand(x) by {
      assert InHand(p.workers[w := x]) + multiset{} == InHand(p.workers[w := x]);
    }
    assert multiset(Taken(Next(p, Dequeue(w)).removed)) == multiset(Taken(p.removed)) + Hand(x);
    Regroup(multiset(p.handled), InHand(p.workers), Hand(x));
  }

  lemma Regroup(a: multiset<Message>, b: multiset<Message>, c: multiset<Message>)
    ensures (a + b) + c == a + (b + c) == (a + c) + b
  {}

  lemma HandleHands(p: Pool, w: nat)
    requires Hands(p) && Enabled(p, Handle(w))
    ensures Hands(Next(p, Handle(w)))
  {
    var m := p.workers[w].msg;
    InHandUpdate(p.workers, w, Idle);
    assert multiset(p.handled + [m]) == multiset(p.handled) + multiset{m};
    assert InHand(p.workers) == InHand(p.workers[w := Idle]) + multiset{m} by {
      assert InHand(p.workers) + Hand(Idle) == InHand(p.workers);
    }
    Regroup(multiset(p.handled), InHand(p.workers[w := Idle]), multiset{m});
  }

  lemma NextOrder(p: Pool, n: nat, step: Step)
    requires Counts(p, n) && Order(p, n) && Enabled(p, step)
    ensures Order(Next(p, step), n)
  {
    LiveBound(p.workers);
    CountAll(p.queue);
    match step
    case Dequeue(w) =>
      LiveUpdate(p.workers, w, if p.queue[0].Terminate? then Exited else Handling(p.queue[0]));
      assert forall i :: 0 <= i < |p.queue| - 1 ==> p.queue[1..][i] == p.queue[i + 1];
    case Handle(w) => LiveUpdate(p.workers, w, Idle);
    case _ =>
  }

  lemma NextInv(p: Pool, n: nat, step: Step)
    requires Inv(p, n) && Enabled(p, step)
    ensures Inv(Next(p, step), n)
  {
    NextCounts(p, n, step);
    NextFlow(p, step);
    NextHands(p, step);
    NextOrder(p, n, step);
  }

  lemma {:induction false} ExecInv(p: Pool, n: nat, steps: seq<Step>)
    requires Inv(p, n) && Legal(p, steps)
    ensures Inv(Exec(p, steps), n)
    decreases |steps|
  {
    if steps != [] {
      NextInv(p, n, steps[0]);
      ExecInv(Next(p, steps[0]), n, steps[1..]);
    }
  }

  ghost predicate Stuck(p: Pool) {
    forall step :: Enabled(p, step) ==> step.Timeout?
  }

  /** While shutting down, the only way to be stuck is a queue without room for a single message. */
  lemma StuckIff(capacity: nat, n: nat, steps: seq<Step>)
    requires n > 0 && Legal(Start(capacity, n), steps)
    requires var p := Exec(Start(capacity, n), steps); p.destroying && !Final(p)
    ensures Stuck(Exec(Start(capacity, n), steps)) <==> capacity == 0
  {
    var p := Exec(Start(capacity, n), steps);
    StartInv(capacity, n);
    ExecInv(Start(capacity, n), n, steps);
    SameCapacity(Start(capacity, n), steps);
    if capacity == 0 {
      NothingTaken(capacity, n, steps);
    } else {
      NotStuck(p, n);
    }
  }

  lemma NotStuck(p: Pool, n: nat)
    requires Inv(p, n) && n > 0 && p.capacity > 0 && p.destroying && !Final(p)
    ensures exists step :: Enabled(p, step) && !step.Timeout?
  {
    LiveBound(p.workers);
    CountAll(p.queue);
    if w :| 0 <= w < n && p.workers[w].Handling? {
      assert Enabled(p, Handle(w));
    } else if p.queue == [] {
      if p.toPost > 0 { assert Enabled(p, PostTerminate); }
    } else if w :| 0 <= w < n && p.workers[w].Idle? {
      assert Enabled(p, Dequeue(w));
    } else {
      assert false;
    }
  }

  lemma {:induction false} SameCapacity(p: Pool, steps: seq<Step>)
    requires Legal(p, steps)
    ensures Exec(p, steps).capacity == p.capacity
    decreases |steps|
  {
    if steps != [] { SameCapacity(Next(p, steps[0]), steps[1..]); }
  }

  lemma {:induction false} NothingTaken(capacity: nat, n: nat, steps: seq<Step>)
    requires capacity == 0 && Legal(Start(capacity, n), steps)
    ensures var p := Exec(Start(capacity, n), steps);
            p.queue == [] && forall w :: 0 <= w < |p.workers| ==> p.workers[w].Idle?
  {
    StaysIdle(Start(capacity, n), steps);
  }

  lemma {:induction false} StaysIdle(p: Pool, steps: seq<Step>)
    requires Legal(p, steps) && p.capacity == 0 && p.queue == []
    requires forall w :: 0 <= w < |p.workers| ==> p.workers[w].Idle?
    ensures Exec(p, steps).queue == []
    ensures forall w :: 0 <= w < |Exec(p, steps).workers| ==> Exec(p, steps).workers[w].Idle?
    decreases |steps|
  {
    if steps != [] { StaysIdle(Next(p, steps[0]), steps[1..]); }
  }

  /** Work left to do during shutdown. */
  function Remaining(p: Pool): nat {
    3 * p.toPost + 2 * |p.queue| + |InHand(p.workers)|
  }

  /** Every step of the shutdown other than a time-out reduces the work left, so it ends after finitely many. */
  lemma ShutdownProgress(p: Pool, n: nat, step: Step)
    requires Inv(p, n) && p.destroying && Enabled(p, step) && !step.Timeout?
    ensures Remaining(Next(p, step)) < Remaining(p)
  {
    if step.Dequeue? {
      var m := p.queue[0];
      HandCount(p.workers, step.w, if m.Terminate? then Exited else Handling(m));
    }
    if step.Handle? { HandCount(p.workers, step.w, Idle); }
  }

  lemma HandCount(ws: seq<Worker>, w: nat, x: Worker)
    requires w < |ws|
    ensures |InHand(ws[w := x])| + |Hand(ws[w])| == |InHand(ws)| + |Hand(x)|
    ensures |Hand(x)| == if x.Handling? then 1 else 0
    ensures |Hand(ws[w])| == if ws[w].Handling? then 1 else 0
  {
    InHandUpdate(ws, w, x);
    assert |InHand(ws[w := x]) + Hand(ws[w])| == |InHand(ws) + Hand(x)|;
  }

  function ProgressSteps(steps: seq<Step>): nat {
    if steps == [] then 0 else ProgressSteps(steps[1..]) + if steps[0].Timeout? then 0 else 1
  }

  lemma {:induction false} ShutdownBounded(p: Pool, n: nat, steps: seq<Step>)
    requires Inv(p, n) && p.destroying && Legal(p, steps)
    ensures ProgressSteps(steps) + Remaining(Exec(p, steps)) <= Remaining(p)
    decreases |steps|
  {
    if steps != [] {
      NextInv(p, n, steps[0]);
      if !steps[0].Timeout? { ShutdownProgress(p, n, steps[0]); }
      ShutdownBounded(Next(p, steps[0]), n, steps[1..]);
    }
  }

  /** In every interleaving the workers still alive match the terminate messages queued or to be posted. */
  lemma LiveWorkersAccounted(capacity: nat, n: nat, steps: seq<Step>)
    requires Legal(Start(capacity, n), steps)
    ensures var p := Exec(Start(capacity, n), steps);
            && Live(p.workers) == Terminates(p.queue) + p.toPost
            && p.accepted == Items(p.removed) + p.queue
            && |p.queue| <= p.capacity
  {
    StartInv(capacity, n);
    ExecInv(Start(capacity, n), n, steps);
  }

  /**
   * When the last worker has exited, nothing is left: every accepted message was removed once, in the order
   * it was accepted; exactly n terminates were taken; and the workers handled exactly what they took.
   */
  lemma ShutdownDrains(capacity: nat, n: nat, steps: seq<Step>)
    requires n > 0 && Legal(Start(capacity, n), steps)
    requires Live(Exec(Start(capacity, n), steps).workers) == 0
    ensures var p := Exec(Start(capacity, n), steps);
            && Final(p) && p.queue == [] && p.accepted == Items(p.removed)
            && TerminatesTaken(p.removed) == n
            && multiset(p.handled) == multiset(Taken(p.removed))
            && forall r :: r in p.removed && r.Overrun? ==> !r.msg.Terminate?
  {
    StartInv(capacity, n);
    ExecInv(Start(capacity, n), n, steps);
    var p := Exec(Start(capacity, n), steps);
    LiveBound(p.workers);
    CountAll(p.queue);
    InHandNone(p.workers);
  }

  /** In every run without a post of the other policy nothing is overrun: all that was accepted is taken, or queued. */
  lemma BlockingPostsLoseNothing(capacity: nat, n: nat, steps: seq<Step>)
    requires Legal(Start(capacity, n), steps) && forall step :: step in steps ==> !step.PostNowait?
    ensures var p := Exec(Start(capacity, n), steps);
            && (forall r :: r in p.removed ==> r.Popped?) && Overruns(p.removed) == 0
            && p.accepted == Items(p.removed) + p.queue
  {
    NothingOverrun(Start(capacity, n), steps);
    LiveWorkersAccounted(capacity, n, steps);
  }

  lemma {:induction false} NothingOverrun(p: Pool, steps: seq<Step>)
    requires Legal(p, steps) && forall step :: step in steps ==> !step.PostNowait?
    requires (forall r :: r in p.removed ==> r.Popped?) && Overruns(p.removed) == 0
    ensures var p' := Exec(p, steps); (forall r :: r in p'.removed ==> r.Popped?) && Overruns(p'.removed) == 0
    decreases |steps|
  {
    if steps != [] {
      assert steps[0] in steps;
      if steps[0].Dequeue? { SnocRemoved(p.removed, Popped(p.queue[0])); }
      NothingOverrun(Next(p, steps[0]), steps[1..]);
    }
  }

  /** A single worker also handles messages in the order they were accepted. */
  ghost predicate InOrder(p: Pool) {
    && |p.workers| == 1
    && Taken(p.removed) == p.handled + if p.workers[0].Handling? then [p.workers[0].msg] else []
  }

  lemma {:induction false} SingleWorkerInOrder(p: Pool, steps: seq<Step>)
    requires InOrder(p) && Legal(p, steps)
    ensures InOrder(Exec(p, steps))
    decreases |steps|
  {
    if steps != [] {
      NextInOrder(p, steps[0]);
      SingleWorkerInOrder(Next(p, steps[0]), steps[1..]);
    }
  }

  lemma NextInOrder(p: Pool, step: Step)
    requires InOrder(p) && Enabled(p, step)
    ensures InOrder(Next(p, step))
  {
    match step
    case PostNowait(m) => SnocRemoved(p.removed, Overrun((p.queue + [m])[0]));
    case Dequeue(w) => SnocRemoved(p.removed, Popped(p.queue[0]));
    case _ =>
  }

  /** With one worker, shutting down has handled every message that was not overrun, in the order of acceptance. */
  lemma SingleWorkerDrains(capacity: nat, steps: seq<Step>)
    requires Legal(Start(capacity, 1), steps) && Live(Exec(Start(capacity, 1), steps).workers) == 0
    ensures var p := Exec(Start(capacity, 1), steps);
            p.handled == Taken(p.removed) && p.accepted == Items(p.removed)
  {
    SingleWorkerInOrder(Start(capacity, 1), steps);
    ShutdownDrains(capacity, 1, steps);
    LiveBound(Exec(Start(capacity, 1), steps).workers);
  }
}
