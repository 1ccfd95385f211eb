/** The output side of a TCP connection: buffered sends, partial writes, and the half-close after the last byte. */
module Connection {
  import opened Buffer

  datatype ConnState = Connecting | Connected | Disconnecting | Disconnected

  /** Work that another thread queued for the loop thread. */
  datatype Functor = SendLater(msg: string) | ShutdownLater

  /**
   * How far a call in another thread has come: it has seen the connection connected, or it has also changed
   * the state; queueing its work is the last thing it does.
   */
  datatype Call = SendTested(msg: string) | ShutdownTested | ShutdownSet

  /**
   * accepted is everything passed to sendInLoop, wire everything the kernel took; shutdowns counts the
   * half-closes, and late the bytes written after the first of them.
   */
  datatype Conn = Conn(
    state: ConnState, writing: bool, output: string, functors: seq<Functor>, calls: seq<Call>,
    accepted: string, wire: string, shutdowns: nat, late: nat, closed: bool)

  const NEW_CONN: Conn := Conn(Connecting, false, "", [], [], "", "", 0, 0, false)

  /** What the kernel took of len offered bytes: a result below zero is an error. */
  predicate WriteResult(n: int, len: nat) {
    n <= len
  }

  function Write(c: Conn, bytes: string): Conn {
    c.(wire := c.wire + bytes, late := c.late + if c.shutdowns > 0 then |bytes| else 0)
  }

  function Sent(c: Conn, msg: string, n: int): Conn
    requires WriteResult(n, |msg|)
  {
    var wrote := if !c.writing && c.output == "" && n > 0 then n else 0;
    var c' := Write(c, msg[..wrote]).(accepted := c.accepted + msg);
    if wrote < |msg| then c'.(output := c.output + msg[wrote..], writing := true) else c'
  }

  function HalfClosed(c: Conn): Conn {
    if c.writing then c else c.(shutdowns := c.shutdowns + 1)
  }

  function Flushed(c: Conn, n: int): Conn
    requires WriteResult(n, |c.output|)
  {
    if !c.writing || n <= 0 then c
    else
      var c' := Write(c, c.output[..n]).(output := c.output[n..]);
      if c'.output != "" then c'
      else if c.state == Disconnecting then HalfClosed(c'.(writing := false))
      else c'.(writing := false)
  }

  /** Send and Shutdown are calls on the loop thread; a call in another thread takes two or three steps. */
  datatype Step =
    | Establish
    | Send(msg: string, n: int)
    | Shutdown
    | TestSend(msg: string)
    | TestShutdown
    | SetState(i: nat)
    | Queue(i: nat)
    | Writable(n: int)
    | RunFunctor(n: int)
    | Close
    | Destroy

  /** A queued send offers its whole message; a queued shutdown does no write. */
  predicate Enabled(c: Conn, step: Step) {
    match step
    case Establish => c.state == Connecting
    case Send(msg, n) => WriteResult(n, |msg|)
    case Shutdown => true
    case TestSend(_) => true
    case TestShutdown => true
    case SetState(i) => i < |c.calls| && c.calls[i].ShutdownTested?
    case Queue(i) => i < |c.calls| && !c.calls[i].ShutdownTested?
    case Writable(n) => WriteResult(n, |c.output|)
    case RunFunctor(n) => c.functors != [] && (c.functors[0].SendLater? ==> WriteResult(n, |c.functors[0].msg|))
    case Close => c.state == Connected || c.state == Disconnecting
    case Destroy => c.state == Connected || c.state == Disconnecting
  }

  function Next(c: Conn, step: Step): Conn
    requires Enabled(c, step)
  {
    match step
    case Establish => c.(state := Connected)
    case Send(msg, n) => if c.state == Connected then Sent(c, msg, n) else c
    case Shutdown => if c.state == Connected then HalfClosed(c.(state := Disconnecting)) else c
    case TestSend(msg) => if c.state == Connected then c.(calls := c.calls + [SendTested(msg)]) else c
    case TestShutdown => if c.state == Connected then c.(calls := c.calls + [ShutdownTested]) else c
    case SetState(i) => c.(state := Disconnecting, calls := c.calls[i := ShutdownSet])
    case Queue(i) =>
      c.(functors := c.functors + [if c.calls[i].SendTested? then SendLater(c.calls[i].msg) else ShutdownLater],
         calls := c.calls[..i] + c.calls[i + 1..])
    case Writable(n) => Flushed(c, n)
    case RunFunctor(n) =>
      var c' := c.(functors := c.functors[1..]);
      (match c.functors[0]
       case SendLater(msg) => Sent(c', msg, n)
       case ShutdownLater => HalfClosed(c'))
    case Close => c.(writing := false, closed := true)
    case Destroy => c.(state := Disconnected, writing := false, closed := true)
  }

  ghost predicate Legal(c: Conn, steps: seq<Step>)
    decreases |steps|
  {
    steps == [] || (Enabled(c, steps[0]) && Legal(Next(c, steps[0]), steps[1..]))
  }

  ghost function Exec(c: Conn, steps: seq<Step>): Conn
    requires Legal(c, steps)
    decreases |steps|
  {
    if steps == [] then c else Exec(Next(c, steps[0]), steps[1..])
  }

  /** No byte is lost, repeated or reordered; and the connection asks to write exactly while it has to. */
  ghost predicate Conserved(c: Conn) {
    && c.wire + c.output == c.accepted
    && (c.writing ==> c.output != "")
    && (!c.closed ==> (c.writing <==> c.output != ""))
  }

  lemma SendConserved(c: Conn, msg: string, n: int)
    requires Conserved(c) && WriteResult(n, |msg|)
    ensures Conserved(Sent(c, msg, n))
  {
    var wrote := if !c.writing && c.output == "" && n > 0 then n else 0;
    SplitSend(c.wire, c.output, msg, wrote);
  }

  lemma SplitSend(wire: string, output: string, msg: string, wrote: nat)
    requires wrote <= |msg| && (wrote > 0 ==> output == "")
    ensures (wire + msg[..wrote]) + (output + msg[wrote..]) == (wire + output) + msg
    ensures wrote == |msg| ==> (wire + msg[..wrote]) + output == (wire + output) + msg
  {
    assert msg == msg[..wrote] + msg[wrote..];
    if wrote == 0 {
      assert msg[..0] == "" && msg[0..] == msg;
      assert wire + "" == wire;
    }
  }

  lemma StepConserved(c: Conn, step: Step)
    requires Conserved(c) && Enabled(c, step)
    ensures Conserved(Next(c, step))
  {
    match step
    case Send(msg, n) => if c.state == Connected { SendConserved(c, msg, n); }
    case Writable(n) =>
      if c.writing && n > 0 { assert c.output == c.output[..n] + c.output[n..]; }
    case RunFunctor(n) =>
      if c.functors[0].SendLater? { SendConserved(c.(functors := c.functors[1..]), c.functors[0].msg, n); }
    case _ =>
  }

  lemma {:induction false} RunConserved(c: Conn, steps: seq<Step>)
    requires Conserved(c) && Legal(c, steps)
    ensures Conserved(Exec(c, steps))
    decreases |steps|
  {
    if steps != [] {
      StepConserved(c, steps[0]);
      RunConserved(Next(c, steps[0]), steps[1..]);
    }
  }

  /** In every run, whatever the kernel accepts and whichever thread sends. */
  lemma OutputConserved(steps: seq<Step>)
    requires Legal(NEW_CONN, steps)
    ensures Conserved(Exec(NEW_CONN, steps))
  {
    RunConserved(NEW_CONN, steps);
  }

  // What was asked of the connection and what the kernel took, read off the run.

  /** The bytes of the write that a step makes, if it makes one. */
  function Offered(c: Conn, step: Step): string
    requires Enabled(c, step)
  {
    match step
    case Send(msg, _) => if c.state == Connected && !c.writing && c.output == "" then msg else ""
    case RunFunctor(_) =>
      if c.functors[0].SendLater? && !c.writing && c.output == "" then c.functors[0].msg else ""
    case Writable(_) => if c.writing then c.output else ""
    case _ => ""
  }

  function Result(step: Step): int {
    match step
    case Send(_, n) => n
    case RunFunctor(n) => n
    case Writable(n) => n
    case _ => 0
  }

  /** The first n of them, if n is what the kernel took. */
  function Took(c: Conn, step: Step): string
    requires Enabled(c, step)
  {
    var offered, n := Offered(c, step), Result(step);
    if 0 < n <= |offered| then offered[..n] else ""
  }

  /** The message that a step passes to the connection for sending. */
  function Passed(c: Conn, step: Step): seq<string>
    requires Enabled(c, step)
  {
    match step
    case Send(msg, _) => if c.state == Connected then [msg] else []
    case RunFunctor(_) => if c.functors[0].SendLater? then [c.functors[0].msg] else []
    case _ => []
  }

  ghost function AllTook(c: Conn, steps: seq<Step>): string
    requires Legal(c, steps)
    decreases |steps|
  {
    if steps == [] then "" else Took(c, steps[0]) + AllTook(Next(c, steps[0]), steps[1..])
  }

  ghost function AllPassed(c: Conn, steps: seq<Step>): seq<string>
    requires Legal(c, steps)
    decreases |steps|
  {
    if steps == [] then [] else Passed(c, steps[0]) + AllPassed(Next(c, steps[0]), steps[1..])
  }

  lemma StepTook(c: Conn, step: Step)
    requires Enabled(c, step)
    ensures Next(c, step).wire == c.wire + Took(c, step)
  {
    match step
    case Send(msg, n) => assert msg[..0] == "" && c.wire + "" == c.wire;
    case RunFunctor(n) =>
      if c.functors[0].SendLater? { assert c.functors[0].msg[..0] == "" && c.wire + "" == c.wire; }
    case _ => assert c.wire + "" == c.wire;
  }

  lemma StepPassed(c: Conn, step: Step)
    requires Enabled(c, step)
    ensures Next(c, step).accepted == c.accepted + Concat(Passed(c, step))
  {
    forall msg: string
      ensures Concat([msg]) == msg
    {
      assert [msg][1..] == [] && msg + "" == msg;
    }
    assert c.accepted + "" == c.accepted;
  }

  lemma {:induction false} ConcatPlus(a: seq<string>, b: seq<string>)
    ensures Concat(a + b) == Concat(a) + Concat(b)
    decreases |a|
  {
    if a == [] {
      assert a + b == b;
    } else {
      ConcatPlus(a[1..], b);
      assert (a + b)[1..] == a[1..] + b;
    }
  }

  lemma {:induction false} RunTotals(c: Conn, steps: seq<Step>)
    requires Legal(c, steps)
    ensures Exec(c, steps).wire == c.wire + AllTook(c, steps)
    ensures Exec(c, steps).accepted == c.accepted + Concat(AllPassed(c, steps))
    decreases |steps|
  {
    if steps == [] {
      assert c.wire + "" == c.wire && c.accepted + "" == c.accepted;
    } else {
      var c' := Next(c, steps[0]);
      StepTook(c, steps[0]);
      StepPassed(c, steps[0]);
      RunTotals(c', steps[1..]);
      ConcatPlus(Passed(c, steps[0]), AllPassed(c', steps[1..]));
      Assoc(c.wire, Took(c, steps[0]), AllTook(c', steps[1..]));
      Assoc(c.accepted, Concat(Passed(c, steps[0])), Concat(AllPassed(c', steps[1..])));
    }
  }

  lemma Assoc(a: string, b: string, c: string)
    ensures (a + b) + c == a + (b + c)
  {}

  /**
   * In every run the wire holds what the kernel took of each write, in order; and with the output buffer it
   * makes up the messages passed for sending, in order.
   */
  lemma WireIsWhatWasTaken(steps: seq<Step>)
    requires Legal(NEW_CONN, steps)
    ensures var c := Exec(NEW_CONN, steps);
            c.wire == AllTook(NEW_CONN, steps) && c.wire + c.output == Concat(AllPassed(NEW_CONN, steps))
  {
    RunTotals(NEW_CONN, steps);
    RunConserved(NEW_CONN, steps);
    assert "" + AllTook(NEW_CONN, steps) == AllTook(NEW_CONN, steps);
    assert "" + Concat(AllPassed(NEW_CONN, steps)) == Concat(AllPassed(NEW_CONN, steps));
  }

  /** Each write of the buffer takes exactly what the kernel took off its front, and ends the interest at its end. */
  lemma WritableTakes(c: Conn, n: int)
    requires c.writing && 0 < n <= |c.output|
    ensures var c' := Next(c, Writable(n));
            && c'.output == c.output[n..] && c'.wire == c.wire + c.output[..n]
            && (c'.writing <==> n < |c.output|) && c'.accepted == c.accepted
  {}

  function Writables(ns: seq<nat>): (steps: seq<Step>)
    ensures |steps| == |ns|
  {
    if ns == [] then [] else [Writable(ns[0])] + Writables(ns[1..])
  }

  function Sum(ns: seq<nat>): nat {
    if ns == [] then 0 else ns[0] + Sum(ns[1..])
  }

  /** Any writes that each take something drain the buffer, in at most as many writes as it has bytes. */
  lemma {:induction false} WritesDrain(c: Conn, ns: seq<nat>)
    requires Conserved(c) && (ns != [] ==> c.writing) && Legal(c, Writables(ns))
    requires forall i :: 0 <= i < |ns| ==> ns[i] > 0
    ensures |ns| <= Sum(ns) <= |c.output|
    ensures var c' := Exec(c, Writables(ns));
            && c'.output == c.output[Sum(ns)..] && c'.wire == c.wire + c.output[..Sum(ns)]
            && (ns != [] ==> (c'.writing <==> Sum(ns) < |c.output|))
    decreases |ns|
  {
    if ns == [] {
      assert c.wire + c.output[..0] == c.wire && c.output[0..] == c.output;
    } else {
      var n, rest := ns[0], ns[1..];
      assert Writables(ns)[1..] == Writables(rest);
      WritableTakes(c, n);
      StepConserved(c, Writable(n));
      var c' := Next(c, Writable(n));
      assert rest != [] ==> Writables(rest)[0] == Writable(rest[0]);
      WritesDrain(c', rest);
      assert c.output[n..][Sum(rest)..] == c.output[Sum(ns)..];
      assert c.output[..n] + c.output[n..][..Sum(rest)] == c.output[..Sum(ns)];
      Assoc(c.wire, c.output[..n], c.output[n..][..Sum(rest)]);
    }
  }

  // No message is lost on its way from another thread.

  function One(yes: bool): nat {
    if yes then 1 else 0
  }

  function Count(msgs: seq<string>, m: string): nat {
    if msgs == [] then 0 else One(msgs[0] == m) + Count(msgs[1..], m)
  }

  function Queued(functors: seq<Functor>, m: string): nat {
    if functors == [] then 0 else One(functors[0] == SendLater(m)) + Queued(functors[1..], m)
  }

  function Begun(calls: seq<Call>, m: string): nat {
    if calls == [] then 0 else One(calls[0] == SendTested(m)) + Begun(calls[1..], m)
  }

  lemma {:induction false} CountPlus(a: seq<string>, b: seq<string>, m: string)
    ensures Count(a + b, m) == Count(a, m) + Count(b, m)
    decreases |a|
  {
    if a == [] {
      assert a + b == b;
    } else {
      CountPlus(a[1..], b, m);
      assert (a + b)[1..] == a[1..] + b;
    }
  }

  lemma {:induction false} QueuedSnoc(a: seq<Functor>, f: Functor, m: string)
    ensures Queued(a + [f], m) == Queued(a, m) + One(f == SendLater(m))
    decreases |a|
  {
    if a == [] {
      assert a + [f] == [f];
    } else {
      QueuedSnoc(a[1..], f, m);
      assert (a + [f])[1..] == a[1..] + [f];
    }
  }

  lemma {:induction false} BegunSnoc(a: seq<Call>, call: Call, m: string)
    ensures Begun(a + [call], m) == Begun(a, m) + One(call == SendTested(m))
    decreases |a|
  {
    if a == [] {
      assert a + [call] == [call];
    } else {
      BegunSnoc(a[1..], call, m);
      assert (a + [call])[1..] == a[1..] + [call];
    }
  }

  lemma {:induction false} BegunUpdate(calls: seq<Call>, i: nat, call: Call, m: string)
    requires i < |calls|
    ensures Begun(calls[i := call], m) + One(calls[i] == SendTested(m)) == Begun(calls, m) + One(call == SendTested(m))
    ensures Begun(calls[..i] + calls[i + 1..], m) + One(calls[i] == SendTested(m)) == Begun(calls, m)
    decreases i
  {
    if i == 0 {
      assert calls[0 := call][1..] == calls[1..] && calls[..0] + calls[1..] == calls[1..];
    } else {
      BegunUpdate(calls[1..], i - 1, call, m);
      assert calls[i := call][1..] == calls[1..][i - 1 := call];
      assert (calls[..i] + calls[i + 1..])[1..] == calls[1..][..i - 1] + calls[1..][i..];
    }
  }

  /** Whether the step is a call to send m that finds the connection connected, in whichever thread. */
  predicate Requests(c: Conn, step: Step, m: string) {
    c.state == Connected && (step.TestSend? || step.Send?) && step.msg == m
  }

  /** How often m is queued, or held by a call that has not queued it yet. */
  function Waiting(c: Conn, m: string): nat {
    Queued(c.functors, m) + Begun(c.calls, m)
  }

  lemma StepAccounted(c: Conn, step: Step, m: string)
    requires Enabled(c, step)
    ensures Count(Passed(c, step), m) + Waiting(Next(c, step), m) == One(Requests(c, step, m)) + Waiting(c, m)
  {
    match step
    case TestSend(msg) => BegunSnoc(c.calls, SendTested(msg), m);
    case TestShutdown => BegunSnoc(c.calls, ShutdownTested, m);
    case SetState(i) => BegunUpdate(c.calls, i, ShutdownSet, m);
    case Queue(i) =>
      BegunUpdate(c.calls, i, ShutdownSet, m);
      QueuedSnoc(c.functors, if c.calls[i].SendTested? then SendLater(c.calls[i].msg) else ShutdownLater, m);
    case _ =>
  }

  ghost function AllAsked(c: Conn, steps: seq<Step>, m: string): nat
    requires Legal(c, steps)
    decreases |steps|
  {
    if steps == [] then 0 else One(Requests(c, steps[0], m)) + AllAsked(Next(c, steps[0]), steps[1..], m)
  }

  lemma {:induction false} RunAccounted(c: Conn, steps: seq<Step>, m: string)
    requires Legal(c, steps)
    ensures Count(AllPassed(c, steps), m) + Waiting(Exec(c, steps), m) == AllAsked(c, steps, m) + Waiting(c, m)
    decreases |steps|
  {
    if steps != [] {
      var c' := Next(c, steps[0]);
      StepAccounted(c, steps[0], m);
      RunAccounted(c', steps[1..], m);
      CountPlus(Passed(c, steps[0]), AllPassed(c', steps[1..]), m);
    }
  }

  /** In every run a message sent while connected is passed on as often as it was sent, or still waits to be. */
  lemma SendsAccounted(steps: seq<Step>, m: string)
    requires Legal(NEW_CONN, steps)
    ensures Count(AllPassed(NEW_CONN, steps), m) + Waiting(Exec(NEW_CONN, steps), m) == AllAsked(NEW_CONN, steps, m)
  {
    RunAccounted(NEW_CONN, steps, m);
  }

  predicate OnLoop(step: Step) {
    !step.TestSend? && !step.TestShutdown?
  }

  /** The half-close comes once, as soon as everything accepted is on the wire, and is the last thing. */
  ghost predicate OrderlyShutdown(c: Conn) {
    && c.functors == [] && c.calls == []
    && c.late == 0
    && (!c.closed ==>
          && (c.state == Connecting || c.state == Connected ==> c.shutdowns == 0)
          && (c.state == Disconnecting ==> c.shutdowns == if c.output == "" then 1 else 0)
          && c.state != Disconnected)
  }

  lemma StepOrderly(c: Conn, step: Step)
    requires Conserved(c) && OrderlyShutdown(c) && !c.closed && Enabled(c, step)
    requires OnLoop(step) && !step.Close? && !step.Destroy?
    ensures OrderlyShutdown(Next(c, step)) && !Next(c, step).closed
  {
    match step
    case Establish =>
    case Send(msg, n) =>
    case Shutdown =>
    case Writable(n) =>
  }

  lemma {:induction false} RunOrderly(c: Conn, steps: seq<Step>)
    requires Conserved(c) && OrderlyShutdown(c) && !c.closed && Legal(c, steps)
    requires forall step :: step in steps ==> OnLoop(step) && !step.Close? && !step.Destroy?
    ensures OrderlyShutdown(Exec(c, steps)) && !Exec(c, steps).closed
    decreases |steps|
  {
    if steps != [] {
      assert steps[0] in steps;
      StepConserved(c, steps[0]);
      StepOrderly(c, steps[0]);
      RunOrderly(Next(c, steps[0]), steps[1..]);
    }
  }

  /**
   * With sends and shutdowns on the loop thread, before the connection is closed: at most one half-close,
   * made exactly when a requested shutdown finds every accepted byte on the wire, and no byte after it.
   */
  lemma ShutdownIsOrderly(steps: seq<Step>)
    requires Legal(NEW_CONN, steps)
    requires forall step :: step in steps ==> OnLoop(step) && !step.Close? && !step.Destroy?
    ensures var c := Exec(NEW_CONN, steps);
            && c.late == 0 && c.shutdowns <= 1
            && (c.shutdowns == 1 <==> c.state == Disconnecting && c.wire == c.accepted)
  {
    RunOrderly(NEW_CONN, steps);
    RunConserved(NEW_CONN, steps);
    var c := Exec(NEW_CONN, steps);
    if c.wire == c.accepted { assert |c.wire + c.output| == |c.wire|; }
    if c.output == "" { assert c.wire + "" == c.wire; }
  }

  // From other threads the order can be lost.

  lemma OneMore(c: Conn, step: Step, rest: seq<Step>)
    requires Enabled(c, step) && Legal(Next(c, step), rest)
    ensures Legal(c, [step] + rest) && Exec(c, [step] + rest) == Exec(Next(c, step), rest)
  {
    assert ([step] + rest)[1..] == rest;
  }

  /** A connection whose buffer drains just after another thread has asked for a shutdown. */
  const OVERTAKEN: seq<Step> := [Establish, Send("ab", 1), TestShutdown, SetState(0), Writable(1)]

  lemma HalfClosedOnce()
    ensures Legal(NEW_CONN, OVERTAKEN)
    ensures Exec(NEW_CONN, OVERTAKEN) == Conn(Disconnecting, false, "", [], [ShutdownSet], "ab", "ab", 1, 0, false)
  {
    var rest := [TestShutdown, SetState(0), Writable(1)];
    var c := Next(NEW_CONN, Establish);
    assert "ab"[..1] == "a" && "ab"[1..] == "b" && Next(c, Send("ab", 1)) == HALF_SENT;
    DrainedMeanwhile();
    OneMore(c, Send("ab", 1), rest);
    OneMore(NEW_CONN, Establish, [Send("ab", 1)] + rest);
    assert OVERTAKEN == [Establish] + ([Send("ab", 1)] + rest);
  }

  const HALF_SENT: Conn := Conn(Connected, true, "b", [], [], "ab", "a", 0, 0, false)

  lemma DrainedMeanwhile()
    ensures var steps := [TestShutdown, SetState(0), Writable(1)];
            && Legal(HALF_SENT, steps)
            && Exec(HALF_SENT, steps) == Conn(Disconnecting, false, "", [], [ShutdownSet], "ab", "ab", 1, 0, false)
  {
    var c := Next(HALF_SENT, TestShutdown);
    var c' := Next(c, SetState(0));
    assert c' == Conn(Disconnecting, true, "b", [], [ShutdownSet], "ab", "a", 0, 0, false);
    assert "b"[..1] == "b" && "b"[1..] == "" && "a" + "b" == "ab";
    OneMore(c', Writable(1), []);
    OneMore(c, SetState(0), [Writable(1)]);
    OneMore(HALF_SENT, TestShutdown, [SetState(0), Writable(1)]);
  }

  /**
   * A shutdown in another thread half-closes a second time if the buffer drains between its change of the
   * state and its queueing, although nothing is queued when the first half-close is made.
   */
  lemma TwiceOffLoop()
    ensures Legal(NEW_CONN, OVERTAKEN)
    ensures var c, after := Exec(NEW_CONN, OVERTAKEN), [Queue(0), RunFunctor(0)];
            && Drained(c) && c.functors == [] && c.shutdowns == 1
            && Legal(c, after) && Exec(c, after).shutdowns == 2
  {
    HalfClosedOnce();
    var c := Exec(NEW_CONN, OVERTAKEN);
    var c' := Next(c, Queue(0));
    assert c'.functors == [ShutdownLater];
    OneMore(c', RunFunctor(0), []);
    OneMore(c, Queue(0), [RunFunctor(0)]);
  }

  /** A send in another thread writes after the half-close if the shutdown overtakes it. */
  lemma LateOffLoop()
    ensures var steps := [Establish, TestSend("x"), Shutdown, Queue(0), RunFunctor(1)];
            Legal(NEW_CONN, steps) && Exec(NEW_CONN, steps).shutdowns == 1 && Exec(NEW_CONN, steps).late == 1
  {
    var c1 := Next(NEW_CONN, Establish);
    var c2 := Next(c1, TestSend("x"));
    var c3 := Next(c2, Shutdown);
    var c4 := Next(c3, Queue(0));
    assert c4.functors == [SendLater("x")] && c4.shutdowns == 1;
    assert Next(c4, RunFunctor(1)).late == 1;
    OneMore(c4, RunFunctor(1), []);
    OneMore(c3, Queue(0), [RunFunctor(1)]);
    OneMore(c2, Shutdown, [Queue(0), RunFunctor(1)]);
    OneMore(c1, TestSend("x"), [Shutdown, Queue(0), RunFunctor(1)]);
    OneMore(NEW_CONN, Establish, [TestSend("x"), Shutdown, Queue(0), RunFunctor(1)]);
  }

  /** Nothing is left to write and the half-close has been made. */
  predicate Drained(c: Conn) {
    c.shutdowns > 0 && c.output == "" && !c.writing && c.state != Connected && c.state != Connecting
  }

  predicate SameTotals(c: Conn, d: Conn) {
    c.late == d.late && c.shutdowns == d.shutdowns
  }

  /** Whether every continuation leaves wire and half-close count alone. */
  ghost predicate QuietForever(c: Conn) {
    forall steps :: Legal(c, steps) ==> SameTotals(c, Exec(c, steps))
  }

  /** No work that does something is queued, or still to be queued by a call that has begun. */
  ghost predicate NothingPending(c: Conn) {
    && (forall i :: 0 <= i < |c.functors| ==> c.functors[i] == SendLater(""))
    && (forall i :: 0 <= i < |c.calls| ==> c.calls[i] == SendTested(""))
  }

  lemma StepStaysQuiet(c: Conn, step: Step)
    requires Drained(c) && NothingPending(c) && Enabled(c, step)
    ensures var c' := Next(c, step); Drained(c') && NothingPending(c') && SameTotals(c, c')
  {}

  lemma {:induction false} StaysQuiet(c: Conn, steps: seq<Step>)
    requires Drained(c) && NothingPending(c) && Legal(c, steps)
    ensures SameTotals(c, Exec(c, steps))
    decreases |steps|
  {
    if steps != [] {
      StepStaysQuiet(c, steps[0]);
      StaysQuiet(Next(c, steps[0]), steps[1..]);
    }
  }

  lemma NotQuietBefore(c: Conn, step: Step)
    requires Enabled(c, step) && (SameTotals(c, Next(c, step)) ==> !QuietForever(Next(c, step)))
    ensures !QuietForever(c)
  {
    var c' := Next(c, step);
    if SameTotals(c, c') {
      var steps :| Legal(c', steps) && !SameTotals(c', Exec(c', steps));
      OneMore(c, step, steps);
    } else {
      OneMore(c, step, []);
    }
  }

  /** Running the queue up to a functor that does something. */
  lemma {:induction false} FunctorBreaks(c: Conn, k: nat)
    requires Drained(c) && k < |c.functors| && c.functors[k] != SendLater("")
    ensures !QuietForever(c)
    decreases k
  {
    var f := c.functors[0];
    var step := RunFunctor(if f.SendLater? then |f.msg| else 0);
    var c' := Next(c, step);
    if f == SendLater("") {
      assert c'.functors[k - 1] == c.functors[k];
      FunctorBreaks(c', k - 1);
    } else if f.SendLater? {
      assert f.msg[..|f.msg|] == f.msg && |f.msg| > 0;
    }
    NotQuietBefore(c, step);
  }

  /** Letting a call go on until its work is queued. */
  lemma CallBreaks(c: Conn, k: nat)
    requires Drained(c) && k < |c.calls| && c.calls[k] != SendTested("")
    ensures !QuietForever(c)
  {
    if c.calls[k].ShutdownTested? {
      var c' := Next(c, SetState(k));
      QueuedBreaks(c', k);
      NotQuietBefore(c, SetState(k));
    } else {
      QueuedBreaks(c, k);
    }
  }

  lemma QueuedBreaks(c: Conn, k: nat)
    requires Drained(c) && k < |c.calls| && c.calls[k] != SendTested("") && !c.calls[k].ShutdownTested?
    ensures !QuietForever(c)
  {
    var c' := Next(c, Queue(k));
    assert c'.functors[|c.functors|] != SendLater("");
    FunctorBreaks(c', |c.functors|);
    NotQuietBefore(c, Queue(k));
  }

  /**
   * Once the half-close has been made, the connection stays quiet in every continuation, from any thread,
   * exactly if no work that does something is queued, nor held by a call that has seen the connection
   * connected and not queued its work yet.
   */
  lemma QuietIff(c: Conn)
    requires Drained(c)
    ensures QuietForever(c) <==> NothingPending(c)
  {
    if NothingPending(c) {
      forall steps | Legal(c, steps)
        ensures SameTotals(c, Exec(c, steps))
      {
        StaysQuiet(c, steps);
      }
    } else if k :| 0 <= k < |c.functors| && c.functors[k] != SendLater("") {
      FunctorBreaks(c, k);
    } else {
      var k :| 0 <= k < |c.calls| && c.calls[k] != SendTested("");
      CallBreaks(c, k);
    }
  }

  /** Work of other threads exists only once the connection was connected, and queued shutdowns have changed the state. */
  ghost predicate StateChanged(c: Conn) {
    && (c.functors != [] || c.calls != [] ==> c.state != Connecting)
    && (ShutdownLater in c.functors || ShutdownSet in c.calls ==> c.state != Connected)
  }

  lemma StepStateChanged(c: Conn, step: Step)
    requires StateChanged(c) && Enabled(c, step)
    ensures StateChanged(Next(c, step))
  {
    match step
    case RunFunctor(n) => assert forall f :: f in c.functors[1..] ==> f in c.functors;
    case Queue(i) =>
      assert c.calls[i] in c.calls;
      forall call | call in Next(c, step).calls
        ensures call in c.calls
      {
        assert call in c.calls[..i] || call in c.calls[i + 1..];
      }
    case _ =>
  }

  lemma {:induction false} RunStateChanged(c: Conn, steps: seq<Step>)
    requires StateChanged(c) && Legal(c, steps)
    ensures StateChanged(Exec(c, steps))
    decreases |steps|
  {
    if steps != [] {
      StepStateChanged(c, steps[0]);
      RunStateChanged(Next(c, steps[0]), steps[1..]);
    }
  }

  /** In every run, from any threads: the step that makes the first half-close before a close leaves nothing to write. */
  lemma FirstHalfCloseDrains(steps: seq<Step>, step: Step)
    requires Legal(NEW_CONN, steps)
    requires var c := Exec(NEW_CONN, steps);
             !c.closed && c.shutdowns == 0 && Enabled(c, step) && Next(c, step).shutdowns > 0
    ensures var c' := Next(Exec(NEW_CONN, steps), step); Drained(c') && c'.wire == c'.accepted && c'.shutdowns == 1
  {
    var c := Exec(NEW_CONN, steps);
    RunConserved(NEW_CONN, steps);
    RunStateChanged(NEW_CONN, steps);
    StepConserved(c, step);
    if step.RunFunctor? { assert c.functors[0] in c.functors; }
    var c' := Next(c, step);
    if c'.output == "" { assert c'.wire + "" == c'.wire; }
  }

  /** So in every run it is decided at that moment whether the connection stays quiet. */
  lemma QuietAfterHalfCloseIff(steps: seq<Step>, step: Step)
    requires Legal(NEW_CONN, steps)
    requires var c := Exec(NEW_CONN, steps);
             !c.closed && c.shutdowns == 0 && Enabled(c, step) && Next(c, step).shutdowns > 0
    ensures var c' := Next(Exec(NEW_CONN, steps), step); QuietForever(c') <==> NothingPending(c')
  {
    FirstHalfCloseDrains(steps, step);
    QuietIff(Next(Exec(NEW_CONN, steps), step));
  }

  /** What other threads have queued or are about to. */
  datatype Others = Others(functors: seq<Functor>, calls: seq<Call>)

  /** The connection itself; the work of other threads is not part of it. */
  class TcpConnection {
    var state: ConnState
    var writing: bool
    const output: Buffer
    ghost var accepted: string
    ghost var wire: string
    ghost var shutdowns: nat
    ghost var late: nat
    ghost var closed: bool

    ghost function View(others: Others): Conn
      requires output.Valid()
      reads this, output
    {
      Conn(state, writing, output.Readable(), others.functors, others.calls, accepted, wire, shutdowns, late, closed)
    }

    constructor ()
      ensures fresh(output) && output.Valid() && View(Others([], [])) == NEW_CONN
    {
      state, writing := Connecting, false;
      output := new Buffer();
      accepted, wire, shutdowns, late, closed := "", "", 0, 0, false;
    }

    ghost method Wrote(bytes: string)
      modifies this`wire, this`late
      ensures wire == old(wire) + bytes && late == old(late) + if shutdowns > 0 then |bytes| else 0
    {
      wire := wire + bytes;
      late := late + if shutdowns > 0 then |bytes| else 0;
    }

    /** n is the result of the direct write, if one is made. */
    method SendInLoop(msg: string, n: int, ghost others: Others)
      requires output.Valid() && WriteResult(n, |msg|)
      modifies this, output
      ensures output.Valid() && View(others) == Sent(old(View(others)), msg, n)
    {
      var nwrote := 0;
      if !writing && output.ReadableBytes() == 0 {
        nwrote := if n >= 0 then n else 0;
      }
      Wrote(msg[..nwrote]);
      accepted := accepted + msg;
      if nwrote < |msg| {
        output.Append(msg[nwrote..]);
        if !writing { writing := true; }
      }
    }

    /** Called on the loop thread, which sends at once. */
    method Send(msg: string, n: int, ghost others: Others)
      requires output.Valid() && WriteResult(n, |msg|)
      modifies this, output
      ensures output.Valid() && View(others) == Next(old(View(others)), Step.Send(msg, n))
    {
      if state == Connected { SendInLoop(msg, n, others); }
    }

    method ShutdownInLoop(ghost others: Others)
      requires output.Valid()
      modifies this`shutdowns
      ensures View(others) == HalfClosed(old(View(others)))
    {
      if !writing { shutdowns := shutdowns + 1; }
    }

    method HandleWrite(n: int, ghost others: Others)
      requires output.Valid() && WriteResult(n, output.ReadableBytes())
      modifies this, output
      ensures output.Valid() && View(others) == Flushed(old(View(others)), n)
    {
      if writing {
        if n > 0 {
          Wrote(output.Readable()[..n]);
          output.Retrieve(n);
          if output.ReadableBytes() == 0 {
            writing := false;
            if state == Disconnecting { ShutdownInLoop(others); }
          }
        }
      }
    }

    /** Called on the loop thread, which runs the second half at once. */
    method Shutdown(ghost others: Others)
      requires output.Valid()
      modifies this
      ensures View(others) == Next(old(View(others)), Step.Shutdown)
    {
      if state == Connected {
        state := Disconnecting;
        ShutdownInLoop(others);
      }
    }

    method HandleClose(ghost others: Others)
      requires output.Valid() && (state == Connected || state == Disconnecting)
      modifies this
      ensures View(others) == Next(old(View(others)), Close)
    {
      writing := false;
      closed := true;
    }
  }
}
