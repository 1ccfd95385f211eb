/** A file descriptor with the events its owner wants and the poller's own note about it. */
module Channels {
  type Mask = bv16

  const NONE_EVENT: Mask := 0
  const READ_EVENT: Mask := 0x003
  const WRITE_EVENT: Mask := 0x004

  class Channel {
    const fd: nat
    var events: Mask
    var revents: int
    var index: int

    constructor (fd: nat)
      ensures this.fd == fd && events == NONE_EVENT && revents == 0 && index == -1
    {
      this.fd := fd;
      events, revents, index := NONE_EVENT, 0, -1;
    }

    predicate IsNoneEvent()
      reads this
    {
      events == NONE_EVENT
    }
  }

  /** The ways an owner changes its interest before telling the poller. */
  datatype Interest = EnableReading | EnableWriting | DisableWriting | DisableAll

  function Changed(mask: Mask, i: Interest): Mask {
    match i
    case EnableReading => mask | READ_EVENT
    case EnableWriting => mask | WRITE_EVENT
    case DisableWriting => mask & !WRITE_EVENT
    case DisableAll => NONE_EVENT
  }

  // Reading is bits 0 and 1, writing bit 2; each change leaves the other interest, and any other bit, as it was.

  lemma ReadingEnabled(mask: Mask)
    ensures Changed(mask, EnableReading) & 3 == 3 && Changed(mask, EnableReading) & 0xFFFC == mask & 0xFFFC
  {}

  lemma WritingEnabled(mask: Mask)
    ensures Changed(mask, EnableWriting) & 4 == 4 && Changed(mask, EnableWriting) & 0xFFFB == mask & 0xFFFB
  {}

  lemma WritingDisabled(mask: Mask)
    ensures Changed(mask, DisableWriting) & 4 == 0 && Changed(mask, DisableWriting) & 0xFFFB == mask & 0xFFFB
  {}

  lemma AllDisabled(mask: Mask)
    ensures Changed(mask, DisableAll) == 0
  {}
}

/** The epoll-based poller and the kernel's interest set it maintains. */
module EPoller {
  import opened Channels

  const NEW: int := -1
  const ADDED: int := 1
  const DELETED: int := 2

  datatype CtlOp = Add | Mod | Del

  /** The kernel's interest set; refused counts the control calls it turned down. */
  datatype Kernel = Kernel(interest: map<nat, Mask>, refused: nat)

  /** epoll_ctl: adding a present descriptor, or changing an absent one, is refused. */
  function Ctl(k: Kernel, op: CtlOp, fd: nat, mask: Mask): Kernel {
    if (op == Add) == (fd in k.interest) then k.(refused := k.refused + 1)
    else if op == Del then k.(interest := k.interest - {fd})
    else k.(interest := k.interest[fd := mask])
  }

  /** What the poller knows of one channel. */
  datatype Entry = Entry(index: int, mask: Mask)

  datatype Registry = Registry(channels: map<nat, Entry>, kernel: Kernel)

  const EMPTY: Registry := Registry(map[], Kernel(map[], 0))

  /** How the poller reacts to a channel that now wants the given events. */
  function Reaction(r: Registry, fd: nat, mask: Mask): CtlOp {
    if fd !in r.channels || r.channels[fd].index == DELETED then Add
    else if mask == NONE_EVENT then Del
    else Mod
  }

  function Updated(r: Registry, fd: nat, mask: Mask): Registry {
    var op := Reaction(r, fd, mask);
    Registry(r.channels[fd := Entry(if op == Del then DELETED else ADDED, mask)], Ctl(r.kernel, op, fd, mask))
  }

  function Removed(r: Registry, fd: nat): Registry
    requires fd in r.channels
  {
    Registry(r.channels - {fd},
             if r.channels[fd].index == ADDED then Ctl(r.kernel, Del, fd, NONE_EVENT) else r.kernel)
  }

  datatype Op = Update(fd: nat, change: Interest) | Remove(fd: nat)

  function MaskOf(r: Registry, fd: nat): Mask {
    if fd in r.channels then r.channels[fd].mask else NONE_EVENT
  }

  /** A channel is removed only when it is registered and wants nothing any more. */
  predicate LegalOp(r: Registry, op: Op) {
    op.Remove? ==> op.fd in r.channels && r.channels[op.fd].mask == NONE_EVENT
  }

  function Apply(r: Registry, op: Op): Registry
    requires LegalOp(r, op)
  {
    match op
    case Update(fd, change) => Updated(r, fd, Changed(MaskOf(r, fd), change))
    case Remove(fd) => Removed(r, fd)
  }

  ghost predicate Legal(r: Registry, ops: seq<Op>)
    decreases |ops|
  {
    ops == [] || (LegalOp(r, ops[0]) && Legal(Apply(r, ops[0]), ops[1..]))
  }

  ghost function Run(r: Registry, ops: seq<Op>): Registry
    requires Legal(r, ops)
    decreases |ops|
  {
    if ops == [] then r else Run(Apply(r, ops[0]), ops[1..])
  }

  /** The kernel watches exactly the channels marked added, for exactly the events they want. */
  ghost predicate InSync(r: Registry) {
    && r.kernel.refused == 0
    && (forall fd :: fd in r.kernel.interest <==> fd in r.channels && r.channels[fd].index == ADDED)
    && (forall fd :: fd in r.kernel.interest ==> r.kernel.interest[fd] == r.channels[fd].mask)
    && (forall fd :: fd in r.channels ==>
          r.channels[fd].index == ADDED || (r.channels[fd].index == DELETED && r.channels[fd].mask == NONE_EVENT))
  }

  lemma {:induction false} RunInSync(r: Registry, ops: seq<Op>)
    requires InSync(r) && Legal(r, ops)
    ensures InSync(Run(r, ops))
    decreases |ops|
  {
    if ops != [] {
      ApplyInSync(r, ops[0]);
      RunInSync(Apply(r, ops[0]), ops[1..]);
    }
  }

  lemma ApplyInSync(r: Registry, op: Op)
    requires InSync(r) && LegalOp(r, op)
    ensures InSync(Apply(r, op))
  {}

  /**
   * After an update the kernel watches the channel for what it wants now, unless it wants nothing any more; a
   * channel that was not watched is watched even for nothing. Nothing else changes.
   */
  lemma UpdateEffect(r: Registry, fd: nat, change: Interest)
    requires InSync(r)
    ensures var mask, r' := Changed(MaskOf(r, fd), change), Apply(r, Update(fd, change));
            && (fd in r'.kernel.interest <==> mask != NONE_EVENT || fd !in r.kernel.interest)
            && (fd in r'.kernel.interest ==> r'.kernel.interest[fd] == mask)
            && fd in r'.channels && r'.channels[fd].mask == mask
            && r'.kernel.interest - {fd} == r.kernel.interest - {fd} && r'.channels - {fd} == r.channels - {fd}
  {}

  lemma RemoveEffect(r: Registry, fd: nat)
    requires InSync(r) && LegalOp(r, Remove(fd))
    ensures var r' := Apply(r, Remove(fd));
            r'.kernel.interest == r.kernel.interest - {fd} && r'.channels == r.channels - {fd}
  {}

  /** Over every legal sequence of operations, without a refused control call. */
  lemma KernelFollows(ops: seq<Op>)
    requires Legal(EMPTY, ops)
    ensures InSync(Run(EMPTY, ops))
  {
    RunInSync(EMPTY, ops);
  }

  /** The channel pointers the kernel keeps, after a control call. */
  function Repointed(pointers: map<nat, Channel>, op: CtlOp, c: Channel): map<nat, Channel> {
    if op == Del then pointers - {c.fd} else pointers[c.fd := c]
  }

  /** The kernel keeps a pointer for each descriptor it watches, to the channel registered for it. */
  ghost predicate PointsTo(pointers: map<nat, Channel>, interest: map<nat, Mask>, channels: map<nat, Channel>) {
    && (forall fd :: fd in pointers <==> fd in interest)
    && (forall fd :: fd in pointers ==> fd in channels && channels[fd] == pointers[fd])
  }

  lemma CtlPoints(k: Kernel, op: CtlOp, c: Channel, mask: Mask, pointers: map<nat, Channel>, channels: map<nat, Channel>)
    requires PointsTo(pointers, k.interest, channels) && Ctl(k, op, c.fd, mask).refused == k.refused
    ensures PointsTo(Repointed(pointers, op, c), Ctl(k, op, c.fd, mask).interest, channels[c.fd := c])
    ensures op == Del ==> PointsTo(Repointed(pointers, op, c), Ctl(k, op, c.fd, mask).interest, channels - {c.fd})
  {}

  class EPoller {
    var channels: map<nat, Channel>
    ghost var kernel: Kernel
    /** The channel pointer the kernel keeps for each descriptor it watches. */
    ghost var pointers: map<nat, Channel>

    ghost predicate Valid()
      reads this, channels.Values
    {
      Registered() && PointsTo(pointers, kernel.interest, channels) && InSync(View())
    }

    /** The channel objects are the registered ones, each under its own descriptor. */
    ghost predicate Registered()
      reads this
    {
      forall fd :: fd in channels ==> channels[fd].fd == fd
    }

    ghost function View(): Registry
      reads this, channels.Values
    {
      Registry(map fd | fd in channels :: Entry(channels[fd].index, channels[fd].events), kernel)
    }

    constructor ()
      ensures Valid() && View() == EMPTY
    {
      channels := map[];
      kernel, pointers := Kernel(map[], 0), map[];
    }

    /** One epoll_ctl call for a channel. */
    ghost method Control(op: CtlOp, c: Channel)
      modifies this`kernel, this`pointers
      ensures kernel == Ctl(old(kernel), op, c.fd, c.events)
      ensures pointers == Repointed(old(pointers), op, c)
    {
      kernel := Ctl(kernel, op, c.fd, c.events);
      pointers := Repointed(pointers, op, c);
    }

    /** A channel either is registered here or is new. */
    ghost predicate Owns(c: Channel)
      reads this, c
    {
      if c.index == NEW then c.fd !in channels else c.fd in channels && channels[c.fd] == c
    }

    method Change(c: Channel, i: Interest)
      requires Valid() && Owns(c) && (c.index == NEW ==> c.events == NONE_EVENT)
      modifies this, c
      ensures Valid() && Owns(c) && View() == Apply(old(View()), Update(c.fd, i))
      ensures channels == old(channels)[c.fd := c]
    {
      ghost var was := View();
      assert forall fd :: fd in channels && fd != c.fd ==> channels[fd] != c;
      c.events := Changed(c.events, i);
      Refresh(c, was);
      ApplyInSync(was, Update(c.fd, i));
      CtlPoints(was.kernel, Reaction(was, c.fd, c.events), c, c.events, old(pointers), old(channels));
    }

    method Refresh(c: Channel, ghost was: Registry)
      requires Registered() && Owns(c) && kernel == was.kernel && was.channels.Keys == channels.Keys
      requires c.index == NEW || c.index == ADDED || c.index == DELETED
      requires forall fd :: fd in channels ==> was.channels[fd].index == channels[fd].index
      requires forall fd :: fd in channels && fd != c.fd ==> was.channels[fd].mask == channels[fd].events
      modifies this, c`index
      ensures Registered() && Owns(c) && View() == Updated(was, c.fd, c.events)
      ensures channels == old(channels)[c.fd := c]
      ensures pointers == Repointed(old(pointers), Reaction(was, c.fd, c.events), c)
    {
      assert forall fd :: fd in channels && fd != c.fd ==> channels[fd] != c;
      UpdateChannel(c, was);
      assert View().channels == Updated(was, c.fd, c.events).channels;
    }

    /** was is the registry before the channel changed its events. */
    method UpdateChannel(c: Channel, ghost was: Registry)
      requires Owns(c) && kernel == was.kernel && was.channels.Keys == channels.Keys
      requires c.index == NEW || c.index == ADDED || c.index == DELETED
      requires c.fd in channels ==> was.channels[c.fd].index == c.index
      modifies this, c`index
      ensures channels == old(channels)[c.fd := c]
      ensures c.index == if Reaction(was, c.fd, c.events) == Del then DELETED else ADDED
      ensures kernel == Ctl(was.kernel, Reaction(was, c.fd, c.events), c.fd, c.events)
      ensures pointers == Repointed(old(pointers), Reaction(was, c.fd, c.events), c)
    {
      var index := c.index;
      if index == NEW || index == DELETED {
        if index == NEW {
          channels := channels[c.fd := c];
        }
        c.index := ADDED;
        Control(Add, c);
      } else {
        assert index == ADDED;
        if c.IsNoneEvent() {
          Control(Del, c);
          c.index := DELETED;
        } else {
          Control(Mod, c);
        }
      }
    }

    method RemoveChannel(c: Channel)
      requires Valid() && c.fd in channels && channels[c.fd] == c && c.IsNoneEvent()
      modifies this, c`index
      ensures Valid() && Owns(c) && c.index == NEW
      ensures View() == Apply(old(View()), Remove(c.fd)) && channels == old(channels) - {c.fd}
    {
      ghost var was := View();
      ApplyInSync(was, Remove(c.fd));
      if c.index == ADDED { CtlPoints(kernel, Del, c, c.events, pointers, channels); }
      Unregister(c);
      assert View().channels == was.channels - {c.fd};
    }

    method Unregister(c: Channel)
      requires c.fd in channels && (c.index == ADDED || c.index == DELETED)
      modifies this, c`index
      ensures c.index == NEW && channels == old(channels) - {c.fd}
      ensures kernel == if old(c.index) == ADDED then Ctl(old(kernel), Del, c.fd, c.events) else old(kernel)
      ensures pointers == if old(c.index) == ADDED then Repointed(old(pointers), Del, c) else old(pointers)
    {
      var index := c.index;
      channels := channels - {c.fd};
      if index == ADDED { Control(Del, c); }
      c.index := NEW;
    }

    /** Every event the kernel reports carries a pointer it was given and still keeps, so both look-ups succeed. */
    method FillActiveChannels(events: seq<(Channel, int)>) returns (active: seq<Channel>)
      requires Valid()
      requires forall e :: e in events ==> e.0 in pointers.Values
      modifies channels.Values`revents
      ensures View() == old(View())
      ensures |active| == |events| && forall i :: 0 <= i < |events| ==> active[i] == events[i].0
      ensures forall i :: 0 <= i < |events| && LastFor(events, i) ==> active[i].revents == events[i].1
    {
      forall e | e in events
        ensures e.0.fd in channels && channels[e.0.fd] == e.0
      {
        var fd :| fd in pointers && pointers[fd] == e.0;
      }
      active := Notify(events);
    }

    method Notify(events: seq<(Channel, int)>) returns (active: seq<Channel>)
      requires forall e :: e in events ==> e.0.fd in channels && channels[e.0.fd] == e.0
      modifies channels.Values`revents
      ensures |active| == |events| && forall i :: 0 <= i < |events| ==> active[i] == events[i].0
      ensures forall i :: 0 <= i < |events| && LastFor(events, i) ==> active[i].revents == events[i].1
    {
      active := [];
      var i := 0;
      while i < |events|
        invariant 0 <= i <= |events| && |active| == i
        invariant forall j :: 0 <= j < i ==> active[j] == events[j].0
        invariant forall j :: 0 <= j < i && LastFor(events[..i], j) ==> active[j].revents == events[j].1
      {
        var c := events[i].0;
        assert events[i] in events;
        assert c.fd in channels && channels[c.fd] == c;
        LastForPrefix(events, i);
        c.revents := events[i].1;
        active := active + [c];
        i := i + 1;
      }
      assert events[..i] == events;
    }
  }

  /** No later event is for the same channel. */
  predicate LastFor(events: seq<(Channel, int)>, i: nat)
    requires i < |events|
  {
    forall j :: i < j < |events| ==> events[j].0 != events[i].0
  }

  lemma LastForPrefix(events: seq<(Channel, int)>, i: nat)
    requires i < |events|
    ensures forall j :: 0 <= j < i && LastFor(events[..i + 1], j) ==> LastFor(events[..i], j) && events[j].0 != events[i].0
  {
    forall j | 0 <= j < i && LastFor(events[..i + 1], j)
      ensures LastFor(events[..i], j) && events[j].0 != events[i].0
    {
      var later := events[..i + 1];
      assert later[i].0 != later[j].0;
      assert forall k :: j < k < i ==> events[..i][k] == later[k];
    }
  }
}
