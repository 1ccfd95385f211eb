/**
 * The event loop's queue of pending functors, as an interleaving of the loop thread with threads that queue work.
 * Each step is one critical section or one flag access of the loop or of a queueing thread.
 */
module EventLoop {

  type Functor = nat

  /** Where the loop thread is: outside loop(), in a poll, or in one of the stages between two polls. */
  datatype Stage = Outside | InPoll | Handling | Calling | Running | AfterBatch

  /**
   * batch is what is left of the swapped-out functors; checking says the loop thread has pushed a functor and
   * not yet looked whether to wake itself; owed counts the other threads that have pushed and not yet called
   * wakeup; woken says wakeup was called since the last poll returned; first, that the loop was entered and
   * has not polled before.
   */
  datatype Loop = Loop(
    stage: Stage, pending: seq<Functor>, batch: seq<Functor>, ran: seq<Functor>, queued: seq<Functor>,
    calling: bool, checking: bool, owed: nat, woken: bool, first: bool)

  const START: Loop := Loop(Outside, [], [], [], [], false, false, 0, false, false)

  /** Which code pushes on the loop thread: a functor, the destructor of one whose batch is done, or other code. */
  datatype Origin = InFunctor | InDestructor | Elsewhere

  datatype Step =
    | OtherPush(f: Functor)
    | OtherWake
    | LoopPush(f: Functor, from: Origin)
    | LoopCheck
    | EnterLoop
    | EnterPoll
    | PollReturns
    | SetCalling
    | Swap
    | RunOne
    | ClearCalling
    | LeaveLoop

  /**
   * User code runs on the loop thread outside the loop, in event handlers and in functors; and after a batch,
   * when its functors are destroyed and may hold the last reference to something.
   */
  predicate Enabled(s: Loop, step: Step) {
    match step
    case OtherPush(_) => true
    case OtherWake => s.owed > 0
    case LoopPush(_, from) =>
      && !s.checking
      && (match from
          case InFunctor => s.stage == Running
          case InDestructor => s.stage == AfterBatch
          case Elsewhere => s.stage == Outside || s.stage == Handling)
    case LoopCheck => s.checking
    case EnterLoop => !s.checking && s.stage == Outside
    case EnterPoll => !s.checking && s.stage == AfterBatch
    case PollReturns => s.stage == InPoll
    case SetCalling => !s.checking && s.stage == Handling
    case Swap => s.stage == Calling
    case RunOne => !s.checking && s.stage == Running && s.batch != []
    case ClearCalling => !s.checking && s.stage == Running && s.batch == []
    case LeaveLoop => !s.checking && s.stage == AfterBatch
  }

  function Next(s: Loop, step: Step): Loop
    requires Enabled(s, step)
  {
    match step
    case OtherPush(f) => s.(pending := s.pending + [f], queued := s.queued + [f], owed := s.owed + 1)
    case OtherWake => s.(owed := s.owed - 1, woken := true)
    case LoopPush(f, _) => s.(pending := s.pending + [f], queued := s.queued + [f], checking := true)
    case LoopCheck => s.(checking := false, woken := s.woken || s.calling)
    case EnterLoop => s.(stage := InPoll, first := true)
    case EnterPoll => s.(stage := InPoll, first := false)
    case PollReturns => s.(stage := Handling, woken := false)
    case SetCalling => s.(stage := Calling, calling := true)
    case Swap => s.(stage := Running, batch := s.pending, pending := [])
    case RunOne => s.(ran := s.ran + [s.batch[0]], batch := s.batch[1..])
    case ClearCalling => s.(stage := AfterBatch, calling := false)
    case LeaveLoop => s.(stage := Outside)
  }

  ghost predicate Legal(s: Loop, steps: seq<Step>)
    decreases |steps|
  {
    steps == [] || (Enabled(s, steps[0]) && Legal(Next(s, steps[0]), steps[1..]))
  }

  ghost function Exec(s: Loop, steps: seq<Step>): Loop
    requires Legal(s, steps)
    decreases |steps|
  {
    if steps == [] then s else Exec(Next(s, steps[0]), steps[1..])
  }

  /** Functors run in the order they were queued, none twice and none skipped. */
  ghost predicate InOrder(s: Loop) {
    && s.ran + s.batch + s.pending == s.queued
    && (s.stage != Running ==> s.batch == [])
  }

  /** Queued work will interrupt the poll: a wakeup was called, or some thread is about to call it. */
  predicate WillWake(s: Loop) {
    s.woken || s.owed > 0
  }

  /** late says that a destructor has pushed since the queue was last swapped. */
  ghost predicate Wakes(s: Loop, late: bool) {
    && (s.calling <==> s.stage == Calling || s.stage == Running)
    && (s.checking ==> s.stage != InPoll && s.stage != Calling && (s.stage == AfterBatch ==> late))
    && (s.stage == Running && s.pending != [] ==> WillWake(s) || s.checking)
    && (s.stage == AfterBatch && s.pending != [] ==> WillWake(s) || late)
    && (s.stage == InPoll && !s.first && s.pending != [] ==> WillWake(s) || late)
  }

  predicate LateAfter(late: bool, step: Step) {
    (late && !step.Swap?) || (step.LoopPush? && step.from == InDestructor)
  }

  /** Read off the calls made: whether a destructor has pushed since the queue was last swapped. */
  predicate Late(late: bool, steps: seq<Step>)
    decreases |steps|
  {
    if steps == [] then late else Late(LateAfter(late, steps[0]), steps[1..])
  }

  /**
   * Whether, since the last poll returned, another thread or a functor has queued something; or another
   * thread had done so before, and not called wakeup yet when that poll returned. Only the calls made count:
   * so says whether they have until now, and owing how many wakeups the other threads owe.
   */
  predicate Stirred(so: bool, owing: int, steps: seq<Step>)
    decreases |steps|
  {
    if steps == [] then so
    else
      var rest := steps[1..];
      match steps[0]
      case OtherPush(_) => Stirred(true, owing + 1, rest)
      case OtherWake => Stirred(so, owing - 1, rest)
      case LoopPush(_, from) => Stirred(so || from == InFunctor, owing, rest)
      case PollReturns => Stirred(owing > 0, owing, rest)
      case _ => Stirred(so, owing, rest)
  }

  lemma StepInOrder(s: Loop, step: Step)
    requires InOrder(s) && Enabled(s, step)
    ensures InOrder(Next(s, step))
  {
    match step
    case OtherPush(f) => assert (s.ran + s.batch + s.pending) + [f] == s.ran + s.batch + (s.pending + [f]);
    case LoopPush(f, _) => assert (s.ran + s.batch + s.pending) + [f] == s.ran + s.batch + (s.pending + [f]);
    case Swap => assert s.ran + s.pending + [] == s.ran + [] + s.pending;
    case RunOne => assert s.ran + s.batch == s.ran + [s.batch[0]] + s.batch[1..];
    case _ =>
  }

  lemma StepWakes(s: Loop, step: Step, late: bool)
    requires Wakes(s, late) && Enabled(s, step)
    ensures Wakes(Next(s, step), LateAfter(late, step))
  {}

  lemma {:induction false} RunInvariants(s: Loop, steps: seq<Step>, late: bool)
    requires InOrder(s) && Wakes(s, late) && Legal(s, steps)
    ensures InOrder(Exec(s, steps)) && Wakes(Exec(s, steps), Late(late, steps))
    decreases |steps|
  {
    if steps != [] {
      StepInOrder(s, steps[0]);
      StepWakes(s, steps[0], late);
      RunInvariants(Next(s, steps[0]), steps[1..], LateAfter(late, steps[0]));
    }
  }

  /** A wakeup is made or on its way exactly after calls that lead to one. */
  predicate Stirring(s: Loop) {
    WillWake(s) || (s.checking && s.calling)
  }

  lemma {:induction false} WillWakeIff(s: Loop, steps: seq<Step>, late: bool)
    requires Wakes(s, late) && Legal(s, steps)
    ensures Stirring(Exec(s, steps)) <==> Stirred(Stirring(s), s.owed, steps)
    decreases |steps|
  {
    if steps != [] {
      StepWakes(s, steps[0], late);
      WillWakeIff(Next(s, steps[0]), steps[1..], LateAfter(late, steps[0]));
    }
  }

  /** In every interleaving. */
  lemma FunctorsInOrder(steps: seq<Step>)
    requires Legal(START, steps)
    ensures var s := Exec(START, steps); s.ran + s.batch + s.pending == s.queued
  {
    RunInvariants(START, steps, false);
  }

  /**
   * Whenever the loop is in a poll that is not the first since it was entered, queued work will interrupt it,
   * unless a destructor has queued something after the last batch.
   */
  lemma NoLostWakeup(steps: seq<Step>)
    requires Legal(START, steps)
    ensures var s := Exec(START, steps);
            s.stage == InPoll && !s.first && s.pending != [] && !Late(false, steps) ==> WillWake(s)
  {
    RunInvariants(START, steps, false);
  }

  /**
   * In any poll at all it holds exactly if nothing is queued, or another thread or a functor has queued
   * something since the last poll returned, or another thread owed a wakeup then. What code outside the loop
   * or a destructor has queued on the loop thread otherwise waits for the poll to time out.
   */
  lemma WakeupIff(steps: seq<Step>)
    requires Legal(START, steps) && Exec(START, steps).stage == InPoll
    ensures var s := Exec(START, steps);
            (s.pending != [] ==> WillWake(s)) <==> s.pending == [] || Stirred(false, 0, steps)
  {
    RunInvariants(START, steps, false);
    WillWakeIff(START, steps, false);
  }

  lemma OneMore(s: Loop, step: Step, rest: seq<Step>)
    requires Enabled(s, step) && Legal(Next(s, step), rest)
    ensures Legal(s, [step] + rest) && Exec(s, [step] + rest) == Exec(Next(s, step), rest)
  {
    assert ([step] + rest)[1..] == rest;
  }

  /** What the loop thread queues before it enters the loop is left to the time-out of the first poll. */
  lemma QueuedBeforeLoop(s: Loop, f: Functor)
    requires s.stage == Outside && !s.checking && !s.calling && !WillWake(s)
    ensures var steps := [LoopPush(f, Elsewhere), LoopCheck, EnterLoop];
            && Legal(s, steps)
            && var t := Exec(s, steps); t.stage == InPoll && t.pending == s.pending + [f] && !WillWake(t)
  {
    var s1 := Next(s, LoopPush(f, Elsewhere));
    var s2 := Next(s1, LoopCheck);
    OneMore(s2, EnterLoop, []);
    OneMore(s1, LoopCheck, [EnterLoop]);
    OneMore(s, LoopPush(f, Elsewhere), [LoopCheck, EnterLoop]);
  }

  /** So it is before the very first poll, and again when a loop that was left is entered a second time. */
  lemma FirstPollCanMiss(f: Functor)
    ensures var round := [EnterLoop, PollReturns, SetCalling, Swap, ClearCalling, LeaveLoop];
            var push := [LoopPush(f, Elsewhere), LoopCheck, EnterLoop];
            && Legal(START, push) && Exec(START, push).pending == [f] && !WillWake(Exec(START, push))
            && Legal(START, round) && Legal(Exec(START, round), push)
            && var s := Exec(Exec(START, round), push); s.stage == InPoll && s.pending == [f] && !WillWake(s)
  {
    var s1 := Next(START, EnterLoop);
    var s2 := Next(s1, PollReturns);
    var s3 := Next(s2, SetCalling);
    var s4 := Next(s3, Swap);
    var s5 := Next(s4, ClearCalling);
    OneMore(s5, LeaveLoop, []);
    OneMore(s4, ClearCalling, [LeaveLoop]);
    OneMore(s3, Swap, [ClearCalling, LeaveLoop]);
    OneMore(s2, SetCalling, [Swap, ClearCalling, LeaveLoop]);
    OneMore(s1, PollReturns, [SetCalling, Swap, ClearCalling, LeaveLoop]);
    OneMore(START, EnterLoop, [PollReturns, SetCalling, Swap, ClearCalling, LeaveLoop]);
    QueuedBeforeLoop(START, f);
    QueuedBeforeLoop(Next(s5, LeaveLoop), f);
  }

  /** A functor holds the last reference to an object whose destructor queues g: the next poll misses it. */
  lemma DestructorCanMiss(f: Functor, g: Functor)
    ensures var steps := [EnterLoop, OtherPush(f), OtherWake, PollReturns, SetCalling, Swap, RunOne, ClearCalling]
                         + [LoopPush(g, InDestructor), LoopCheck, EnterPoll];
            && Legal(START, steps)
            && var s := Exec(START, steps); s.stage == InPoll && !s.first && s.pending == [g] && !WillWake(s)
  {
    var s1 := Loop(InPoll, [f], [], [], [f], false, false, 0, true, true);
    OneBatch(f, g);
    var rest := [PollReturns, SetCalling, Swap, RunOne, ClearCalling, LoopPush(g, InDestructor), LoopCheck, EnterPoll];
    var s2 := Next(START, EnterLoop);
    var s3 := Next(s2, OtherPush(f));
    assert Next(s3, OtherWake) == s1;
    OneMore(s3, OtherWake, rest);
    OneMore(s2, OtherPush(f), [OtherWake] + rest);
    OneMore(START, EnterLoop, [OtherPush(f)] + ([OtherWake] + rest));
    assert [EnterLoop, OtherPush(f), OtherWake, PollReturns, SetCalling, Swap, RunOne, ClearCalling]
           + [LoopPush(g, InDestructor), LoopCheck, EnterPoll] == [EnterLoop] + ([OtherPush(f)] + ([OtherWake] + rest));
  }

  lemma OneBatch(f: Functor, g: Functor)
    ensures var s := Loop(InPoll, [f], [], [], [f], false, false, 0, true, true);
            var steps := [PollReturns, SetCalling, Swap, RunOne, ClearCalling, LoopPush(g, InDestructor), LoopCheck, EnterPoll];
            && Legal(s, steps) && Exec(s, steps) == Loop(InPoll, [g], [], [f], [f, g], false, false, 0, false, false)
  {
    var s1 := Loop(InPoll, [f], [], [], [f], false, false, 0, true, true);
    var s2 := Next(s1, PollReturns);
    var s3 := Next(s2, SetCalling);
    var s4 := Next(s3, Swap);
    var s5 := Next(s4, RunOne);
    var s6 := Next(s5, ClearCalling);
    var s7 := Next(s6, LoopPush(g, InDestructor));
    var s8 := Next(s7, LoopCheck);
    assert s8 == Loop(AfterBatch, [g], [], [f], [f, g], false, false, 0, false, true);
    OneMore(s8, EnterPoll, []);
    OneMore(s7, LoopCheck, [EnterPoll]);
    OneMore(s6, LoopPush(g, InDestructor), [LoopCheck, EnterPoll]);
    OneMore(s5, ClearCalling, [LoopPush(g, InDestructor), LoopCheck, EnterPoll]);
    OneMore(s4, RunOne, [ClearCalling, LoopPush(g, InDestructor), LoopCheck, EnterPoll]);
    OneMore(s3, Swap, [RunOne, ClearCalling, LoopPush(g, InDestructor), LoopCheck, EnterPoll]);
    OneMore(s2, SetCalling, [Swap, RunOne, ClearCalling, LoopPush(g, InDestructor), LoopCheck, EnterPoll]);
    OneMore(s1, PollReturns, [SetCalling, Swap, RunOne, ClearCalling, LoopPush(g, InDestructor), LoopCheck, EnterPoll]);
  }
}
