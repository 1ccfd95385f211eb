/** The poll-based poller: an array of slots, kept dense by moving the last slot into a removed one. */
module Poller {
  import opened Channels

  /** A slot of the array given to poll; a negative descriptor is ignored by it. */
  datatype PollFd = PollFd(fd: int, events: Mask, revents: int)

  /** The descriptor a slot stands for, ignored or not. */
  function Owner(fd: int): nat {
    if fd < 0 then -fd - 1 else fd
  }

  /** How an ignored slot stores its descriptor. */
  function Hidden(fd: nat): (h: int)
    ensures h < 0 && Owner(h) == fd
  {
    -(fd as int) - 1
  }

  /** A channel as the poller sees it: its slot and the events it wants. */
  datatype Entry = Entry(index: int, mask: Mask)

  datatype Table = Table(pollfds: seq<PollFd>, channels: map<nat, Entry>)

  const EMPTY: Table := Table([], map[])

  /** Mapped channels and slots correspond one to one, each channel knowing its slot. */
  ghost predicate Bijection(t: Table) {
    && (forall fd :: fd in t.channels ==>
          0 <= t.channels[fd].index < |t.pollfds| && Owner(t.pollfds[t.channels[fd].index].fd) == fd)
    && (forall k :: 0 <= k < |t.pollfds| ==>
          Owner(t.pollfds[k].fd) in t.channels && t.channels[Owner(t.pollfds[k].fd)].index == k)
  }

  /** Slots carry the events their channels want. */
  ghost predicate Slotted(t: Table)
    requires Bijection(t)
  {
    forall fd :: fd in t.channels ==> t.pollfds[t.channels[fd].index].events == t.channels[fd].mask
  }

  ghost predicate WellFormed(t: Table) {
    Bijection(t) && Slotted(t)
  }

  function Added(t: Table, fd: nat, mask: Mask): Table {
    Table(t.pollfds + [PollFd(fd, mask, 0)], t.channels[fd := Entry(|t.pollfds|, mask)])
  }

  /** Hiding a descriptor is never undone by a later update. */
  function Rewritten(t: Table, fd: nat, mask: Mask): Table
    requires fd in t.channels && 0 <= t.channels[fd].index < |t.pollfds|
  {
    var i := t.channels[fd].index;
    var slot := PollFd(if mask == NONE_EVENT then Hidden(fd) else t.pollfds[i].fd, mask, 0);
    Table(t.pollfds[i := slot], t.channels[fd := Entry(i, mask)])
  }

  /** The last slot moves into the freed one. */
  function Removed(t: Table, fd: nat): Table
    requires fd in t.channels && 0 <= t.channels[fd].index < |t.pollfds|
    requires Owner(t.pollfds[|t.pollfds| - 1].fd) in t.channels
  {
    var i, n := t.channels[fd].index, |t.pollfds| - 1;
    var rest := t.channels - {fd};
    if i == n then Table(t.pollfds[..n], rest)
    else
      var last := t.pollfds[n];
      var moved := Owner(last.fd);
      Table(t.pollfds[i := last][n := t.pollfds[i]][..n], rest[moved := t.channels[moved].(index := i)])
  }

  predicate Ignored(t: Table, fd: nat) {
    fd in t.channels && 0 <= t.channels[fd].index < |t.pollfds| && t.pollfds[t.channels[fd].index].fd < 0
  }

  /**
   * The table, and the index still held by the channel object of a descriptor after its removal, until a new
   * object is created for the descriptor.
   */
  datatype Record = Record(table: Table, stale: map<nat, int>)

  const START: Record := Record(EMPTY, map[])

  /** The index in the channel object of a descriptor. */
  function IndexOf(r: Record, fd: nat): int {
    if fd in r.table.channels then r.table.channels[fd].index
    else if fd in r.stale then r.stale[fd]
    else -1
  }

  datatype Op = Create(fd: nat) | Update(fd: nat, change: Interest) | Remove(fd: nat)

  /** What an update asserts before it does anything. */
  predicate Accepts(r: Record, fd: nat) {
    var i := IndexOf(r, fd);
    if i < 0 then fd !in r.table.channels
    else fd in r.table.channels && i < |r.table.pollfds| && Owner(r.table.pollfds[i].fd) == fd
  }

  /** A channel is removed only when it wants nothing and its slot is hidden; a registered one is not replaced. */
  predicate LegalOp(r: Record, op: Op) {
    match op
    case Create(fd) => fd !in r.table.channels
    case Update(fd, _) => Accepts(r, fd)
    case Remove(fd) => fd in r.table.channels && r.table.channels[fd].mask == NONE_EVENT && Ignored(r.table, fd)
  }

  /** An update goes by the index alone; a removal leaves it as it was. */
  function Apply(r: Record, op: Op): Record
    requires Bijection(r.table) && LegalOp(r, op)
  {
    match op
    case Create(fd) => r.(stale := r.stale - {fd})
    case Update(fd, change) =>
      if IndexOf(r, fd) < 0 then r.(table := Added(r.table, fd, Changed(NONE_EVENT, change)))
      else r.(table := Rewritten(r.table, fd, Changed(r.table.channels[fd].mask, change)))
    case Remove(fd) => Record(Removed(r.table, fd), r.stale[fd := r.table.channels[fd].index])
  }

  ghost predicate Sound(r: Record) {
    WellFormed(r.table) && forall fd :: fd in r.stale ==> r.stale[fd] >= 0 && fd !in r.table.channels
  }

  lemma AddedWellFormed(t: Table, fd: nat, mask: Mask)
    requires WellFormed(t) && fd !in t.channels
    ensures WellFormed(Added(t, fd, mask))
  {}

  lemma RewrittenWellFormed(t: Table, fd: nat, mask: Mask)
    requires WellFormed(t) && fd in t.channels
    ensures WellFormed(Rewritten(t, fd, mask))
  {}

  lemma RemovedWellFormed(t: Table, fd: nat)
    requires WellFormed(t) && fd in t.channels
    ensures WellFormed(Removed(t, fd))
  {
    var i, n := t.channels[fd].index, |t.pollfds| - 1;
    var t' := Removed(t, fd);
    forall k | 0 <= k < n
      ensures Owner(t'.pollfds[k].fd) in t'.channels && t'.channels[Owner(t'.pollfds[k].fd)].index == k
    {
      if k == i { assert t'.pollfds[k] == t.pollfds[n]; } else { assert t'.pollfds[k] == t.pollfds[k]; }
    }
    RemovedForward(t, fd);
  }

  lemma RemovedForward(t: Table, fd: nat)
    requires WellFormed(t) && fd in t.channels
    ensures var t' := Removed(t, fd);
            forall g :: g in t'.channels ==>
              && 0 <= t'.channels[g].index < |t'.pollfds|
              && t'.pollfds[t'.channels[g].index] == t.pollfds[t.channels[g].index]
  {
    var n := |t.pollfds| - 1;
    assert Owner(t.pollfds[n].fd) in t.channels;
  }

  lemma ApplySound(r: Record, op: Op)
    requires Sound(r) && LegalOp(r, op)
    ensures Sound(Apply(r, op))
  {
    match op
    case Create(fd) =>
    case Update(fd, change) =>
      if fd in r.table.channels { RewrittenWellFormed(r.table, fd, Changed(r.table.channels[fd].mask, change)); }
      else { AddedWellFormed(r.table, fd, Changed(NONE_EVENT, change)); }
    case Remove(fd) => RemovedSound(r, fd);
  }

  lemma RemovedSound(r: Record, fd: nat)
    requires Sound(r) && LegalOp(r, Remove(fd))
    ensures Sound(Apply(r, Remove(fd)))
  {
    RemovedWellFormed(r.table, fd);
    RemovedKeys(r.table, fd);
  }

  lemma RemovedIndex(r: Record, fd: nat)
    requires Sound(r) && LegalOp(r, Remove(fd))
    ensures var r' := Apply(r, Remove(fd)); IndexOf(r', fd) == r.table.channels[fd].index && !Accepts(r', fd)
  {
    RemovedKeys(r.table, fd);
  }

  lemma LastSlot(t: Table, fd: nat)
    requires WellFormed(t) && fd in t.channels
    ensures var i, n := t.channels[fd].index, |t.pollfds| - 1;
            && 0 <= i <= n && Owner(t.pollfds[n].fd) in t.channels
            && (i < n ==> Owner(t.pollfds[n].fd) != fd)
  {
    assert Owner(t.pollfds[|t.pollfds| - 1].fd) in t.channels;
  }

  lemma RemovedKeys(t: Table, fd: nat)
    requires WellFormed(t) && fd in t.channels
    ensures Removed(t, fd).channels.Keys == t.channels.Keys - {fd}
  {
    assert Owner(t.pollfds[|t.pollfds| - 1].fd) in t.channels;
  }

  ghost predicate Legal(r: Record, ops: seq<Op>)
    decreases |ops|
  {
    ops == [] || (Bijection(r.table) && LegalOp(r, ops[0]) && Legal(Apply(r, ops[0]), ops[1..]))
  }

  ghost function Run(r: Record, ops: seq<Op>): Record
    requires Legal(r, ops)
    decreases |ops|
  {
    if ops == [] then r else Run(Apply(r, ops[0]), ops[1..])
  }

  /** What becomes of the channel of one descriptor: new, registered with its mask, or removed. */
  datatype Fate = New | Present(mask: Mask, emptied: bool) | Gone

  /** emptied says that an update since the channel was added left it without events. */
  function Fated(x: Fate, op: Op, fd: nat): Fate {
    if op.fd != fd then x
    else
      match op
      case Create(_) => New
      case Remove(_) => Gone
      case Update(_, change) =>
        match x
        case New => Present(Changed(NONE_EVENT, change), false)
        case Present(mask, emptied) => Present(Changed(mask, change), emptied || Changed(mask, change) == NONE_EVENT)
        case Gone => Gone
  }

  /** Read off the operations alone, without the table. */
  function FateOf(x: Fate, ops: seq<Op>, fd: nat): Fate
    decreases |ops|
  {
    if ops == [] then x else FateOf(Fated(x, ops[0], fd), ops[1..], fd)
  }

  /** The record agrees with the fate of one descriptor. */
  ghost predicate Agrees(r: Record, fd: nat, x: Fate) {
    match x
    case New => fd !in r.table.channels && fd !in r.stale
    case Present(mask, emptied) =>
      fd in r.table.channels && r.table.channels[fd].mask == mask && (Ignored(r.table, fd) <==> emptied)
    case Gone => fd !in r.table.channels && fd in r.stale
  }

  lemma RemovedAgrees(r: Record, gone: nat, fd: nat, x: Fate)
    requires Sound(r) && LegalOp(r, Remove(gone)) && gone != fd && Agrees(r, fd, x)
    ensures Agrees(Apply(r, Remove(gone)), fd, x)
  {
    RemovedForward(r.table, gone);
    RemovedKeys(r.table, gone);
  }

  lemma GoneAgrees(r: Record, fd: nat)
    requires Sound(r) && LegalOp(r, Remove(fd))
    ensures Agrees(Apply(r, Remove(fd)), fd, Gone)
  {
    RemovedKeys(r.table, fd);
  }

  lemma RewrittenAgrees(r: Record, fd: nat, mask: Mask, g: nat, x: Fate)
    requires Sound(r) && fd in r.table.channels && Agrees(r, g, x)
    ensures g != fd ==> Agrees(r.(table := Rewritten(r.table, fd, mask)), g, x)
    ensures g == fd ==> x.Present?
                        && Agrees(r.(table := Rewritten(r.table, fd, mask)), g,
                                  Present(mask, x.emptied || mask == NONE_EVENT))
  {}

  lemma AddedAgrees(r: Record, fd: nat, mask: Mask, g: nat, x: Fate)
    requires Sound(r) && fd !in r.table.channels && fd !in r.stale && Agrees(r, g, x)
    ensures Agrees(r.(table := Added(r.table, fd, mask)), g, if g == fd then Present(mask, false) else x)
  {}

  lemma ApplyAgrees(r: Record, op: Op, fd: nat, x: Fate)
    requires Sound(r) && LegalOp(r, op) && Agrees(r, fd, x)
    ensures Agrees(Apply(r, op), fd, Fated(x, op, fd))
  {
    match op
    case Create(_) =>
    case Update(g, change) =>
      if g in r.table.channels { RewrittenAgrees(r, g, Changed(r.table.channels[g].mask, change), fd, x); }
      else { AddedAgrees(r, g, Changed(NONE_EVENT, change), fd, x); }
    case Remove(g) => if g != fd { RemovedAgrees(r, g, fd, x); } else { GoneAgrees(r, fd); }
  }

  lemma {:induction false} RunAgrees(r: Record, ops: seq<Op>, fd: nat, x: Fate)
    requires Sound(r) && Legal(r, ops) && Agrees(r, fd, x)
    ensures Sound(Run(r, ops)) && Agrees(Run(r, ops), fd, FateOf(x, ops, fd))
    decreases |ops|
  {
    if ops != [] {
      ApplySound(r, ops[0]);
      ApplyAgrees(r, ops[0], fd, x);
      RunAgrees(Apply(r, ops[0]), ops[1..], fd, Fated(x, ops[0], fd));
    }
  }

  /** Over every legal sequence of operations. */
  lemma TableStaysWellFormed(ops: seq<Op>)
    requires Legal(START, ops)
    ensures Sound(Run(START, ops))
  {
    RunAgrees(START, ops, 0, New);
  }

  /**
   * An update passes its assertions if and only if the channel has not been removed: a channel object keeps
   * its index when it is removed, and can never be registered again.
   */
  lemma AcceptedIff(ops: seq<Op>, fd: nat)
    requires Legal(START, ops)
    ensures Accepts(Run(START, ops), fd) <==> FateOf(New, ops, fd) != Gone
  {
    RunAgrees(START, ops, fd, New);
  }

  /** The channel is given to poll with the events it wants. */
  ghost predicate Watched(t: Table, fd: nat) {
    exists k :: 0 <= k < |t.pollfds| && t.pollfds[k].fd == fd && fd in t.channels
                && t.pollfds[k].events == t.channels[fd].mask
  }

  /**
   * A channel is given to poll if and only if it is registered and no update since it was last added left
   * it without events: enabling a disabled channel again does not bring it back.
   */
  lemma WatchedIff(ops: seq<Op>, fd: nat)
    requires Legal(START, ops)
    ensures var x := FateOf(New, ops, fd);
            Watched(Run(START, ops).table, fd) <==> x.Present? && !x.emptied
  {
    RunAgrees(START, ops, fd, New);
    var t := Run(START, ops).table;
    if fd in t.channels && !Ignored(t, fd) {
      assert t.pollfds[t.channels[fd].index].fd == fd;
    }
  }

  lemma OneMore(r: Record, op: Op, rest: seq<Op>)
    requires Bijection(r.table) && LegalOp(r, op) && Legal(Apply(r, op), rest)
    ensures Legal(r, [op] + rest) && Run(r, [op] + rest) == Run(Apply(r, op), rest)
  {
    assert ([op] + rest)[1..] == rest;
  }

  /** A single slot and its channel. */
  function Single(fd: nat, slot: int, mask: Mask): Table {
    Table([PollFd(slot, mask, 0)], map[fd := Entry(0, mask)])
  }

  /** A channel enabled and disabled again. */
  lemma Disabled(fd: nat)
    ensures var ops := [Update(fd, EnableReading), Update(fd, DisableAll)];
            Legal(START, ops) && Run(START, ops) == Record(Single(fd, Hidden(fd), NONE_EVENT), map[])
  {
    assert NONE_EVENT | READ_EVENT == READ_EVENT;
    var r := Apply(START, Update(fd, EnableReading));
    assert r == Record(Single(fd, fd, READ_EVENT), map[]);
    assert Apply(r, Update(fd, DisableAll)) == Record(Single(fd, Hidden(fd), NONE_EVENT), map[]);
    OneMore(r, Update(fd, DisableAll), []);
    OneMore(START, Update(fd, EnableReading), [Update(fd, DisableAll)]);
  }

  lemma {:induction false} RunSnoc(r: Record, ops: seq<Op>, op: Op)
    requires Legal(r, ops) && Bijection(Run(r, ops).table) && LegalOp(Run(r, ops), op)
    ensures Legal(r, ops + [op]) && Run(r, ops + [op]) == Apply(Run(r, ops), op)
    decreases |ops|
  {
    if ops == [] {
      OneMore(r, op, []);
      assert ops + [op] == [op];
    } else {
      RunSnoc(Apply(r, ops[0]), ops[1..], op);
      assert ops + [op] == [ops[0]] + (ops[1..] + [op]);
      OneMore(r, ops[0], ops[1..] + [op]);
    }
  }

  /** Enabled once more the channel wants to read, and its slot stays ignored. */
  lemma EnabledAgainIsNotWatched(fd: nat)
    ensures var ops := [Update(fd, EnableReading), Update(fd, DisableAll), Update(fd, EnableReading)];
            && Legal(START, ops) && Run(START, ops).table == Single(fd, Hidden(fd), READ_EVENT)
            && !Watched(Run(START, ops).table, fd)
  {
    Disabled(fd);
    var ops := [Update(fd, EnableReading), Update(fd, DisableAll)];
    RunSnoc(START, ops, Update(fd, EnableReading));
    assert ops + [Update(fd, EnableReading)] == [Update(fd, EnableReading), Update(fd, DisableAll), Update(fd, EnableReading)];
    assert NONE_EVENT | READ_EVENT == READ_EVENT;
  }

  /** Removed instead, the same object cannot be registered again, though a new object for the descriptor can. */
  lemma RemovedCannotReturn(fd: nat)
    ensures var ops := [Update(fd, EnableReading), Update(fd, DisableAll), Remove(fd)];
            var again := ops + [Create(fd)] + [Update(fd, EnableReading)];
            && Legal(START, ops) && Run(START, ops) == Record(EMPTY, map[fd := 0])
            && !LegalOp(Run(START, ops), Update(fd, EnableReading))
            && Legal(START, again) && Watched(Run(START, again).table, fd)
  {
    Disabled(fd);
    var before := [Update(fd, EnableReading), Update(fd, DisableAll)];
    var ops := [Update(fd, EnableReading), Update(fd, DisableAll), Remove(fd)];
    RunSnoc(START, before, Remove(fd));
    assert before + [Remove(fd)] == ops;
    assert Run(START, ops) == Record(EMPTY, map[fd := 0]);
    RunSnoc(START, ops, Create(fd));
    assert Run(START, ops + [Create(fd)]) == START;
    RunSnoc(START, ops + [Create(fd)], Update(fd, EnableReading));
    assert NONE_EVENT | READ_EVENT == READ_EVENT;
    assert Run(START, ops + [Create(fd)] + [Update(fd, EnableReading)]).table.pollfds[0] == PollFd(fd, READ_EVENT, 0);
  }

  /** The slots with something to report, in order. */
  function ActiveSlots(slots: seq<PollFd>): seq<nat> {
    if slots == [] then []
    else
      var n := |slots| - 1;
      ActiveSlots(slots[..n]) + if slots[n].revents > 0 then [n] else []
  }

  /** a lists the slots with something to report, each once, in increasing order, and no other slot. */
  ghost predicate ListsActive(a: seq<nat>, slots: seq<PollFd>) {
    && (forall i :: 0 <= i < |a| ==> a[i] < |slots| && slots[a[i]].revents > 0)
    && (forall i, j :: 0 <= i < j < |a| ==> a[i] < a[j])
    && (forall k :: 0 <= k < |slots| && slots[k].revents > 0 ==> k in a)
  }

  lemma ListsNext(a: seq<nat>, slots: seq<PollFd>, slot: PollFd)
    requires ListsActive(a, slots)
    ensures ListsActive(a + if slot.revents > 0 then [|slots|] else [], slots + [slot])
  {
    var b := a + if slot.revents > 0 then [|slots|] else [];
    assert forall k :: k in a ==> k in b;
    assert slot.revents > 0 ==> b[|a|] == |slots|;
  }

  lemma {:induction false} ActiveSlotsExact(slots: seq<PollFd>)
    ensures ListsActive(ActiveSlots(slots), slots)
  {
    if slots != [] {
      var n := |slots| - 1;
      ActiveSlotsExact(slots[..n]);
      ListsNext(ActiveSlots(slots[..n]), slots[..n], slots[n]);
      assert slots[..n] + [slots[n]] == slots;
    }
  }

  lemma {:induction false} ActivePrefix(slots: seq<PollFd>, i: nat)
    requires i <= |slots|
    ensures ActiveSlots(slots[..i]) <= ActiveSlots(slots)
    decreases |slots| - i
  {
    if i < |slots| {
      ActivePrefix(slots, i + 1);
      assert slots[..i + 1][..i] == slots[..i];
    } else {
      assert slots[..i] == slots;
    }
  }

  /** The slots whose channels can be looked up as they stand, no two for the same channel. */
  ghost predicate Found(pollfds: seq<PollFd>, fds: set<nat>, slots: seq<nat>) {
    && (forall i :: 0 <= i < |slots| ==> slots[i] < |pollfds| && pollfds[slots[i]].fd >= 0 && pollfds[slots[i]].fd in fds)
    && (forall i, j :: 0 <= i < j < |slots| ==> pollfds[slots[i]].fd != pollfds[slots[j]].fd)
  }

  /** An active slot is not an ignored one, so its descriptor is that of a mapped channel. */
  lemma LookupsSucceed(t: Table, n: nat)
    requires Bijection(t) && n <= |ActiveSlots(t.pollfds)|
    requires forall k :: 0 <= k < |t.pollfds| && t.pollfds[k].revents > 0 ==> t.pollfds[k].fd >= 0
    ensures Found(t.pollfds, t.channels.Keys, ActiveSlots(t.pollfds)[..n])
  {
    ActiveSlotsExact(t.pollfds);
    var slots := ActiveSlots(t.pollfds)[..n];
    forall i | 0 <= i < n
      ensures slots[i] < |t.pollfds| && t.pollfds[slots[i]].fd >= 0
      ensures t.pollfds[slots[i]].fd in t.channels && t.channels[t.pollfds[slots[i]].fd].index == slots[i]
    {
      assert slots[i] == ActiveSlots(t.pollfds)[i];
      assert Owner(t.pollfds[slots[i]].fd) == t.pollfds[slots[i]].fd;
    }
  }

  /** The scan over the slots, which stops after as many as poll said it reported. */
  method ScanSlots(pollfds: seq<PollFd>, numEvents: nat) returns (active: seq<nat>)
    ensures active == ActiveSlots(pollfds)[..if numEvents <= |ActiveSlots(pollfds)| then numEvents
                                             else |ActiveSlots(pollfds)|]
  {
    active := [];
    var left, k := numEvents, 0;
    while k < |pollfds| && left > 0
      invariant 0 <= k <= |pollfds| && 0 <= left && |active| == numEvents - left
      invariant active == ActiveSlots(pollfds[..k])
    {
      assert pollfds[..k + 1][..k] == pollfds[..k];
      if pollfds[k].revents > 0 {
        left := left - 1;
        active := active + [k];
      }
      k := k + 1;
    }
    ActivePrefix(pollfds, k);
    if k == |pollfds| { assert pollfds[..k] == pollfds; }
  }

  class Poller {
    var pollfds: seq<PollFd>
    var channels: map<nat, Channel>

    /** The indices still held by removed channel objects. */
    ghost var stale: map<nat, int>

    ghost predicate Valid()
      reads this, channels.Values
    {
      Registered() && Sound(Whole())
    }

    ghost predicate Registered()
      reads this
    {
      forall fd :: fd in channels ==> channels[fd].fd == fd
    }

    ghost function View(): Table
      reads this, channels.Values
    {
      Table(pollfds, map fd | fd in channels :: Entry(channels[fd].index, channels[fd].events))
    }

    ghost function Whole(): Record
      reads this, channels.Values
    {
      Record(View(), stale)
    }

    constructor ()
      ensures Valid() && Whole() == START
    {
      pollfds, channels, stale := [], map[], map[];
    }

    /** c is the channel object of its descriptor: the registered one, the removed one, or a new one. */
    ghost predicate Current(c: Channel)
      reads this, c, channels.Values
    {
      && c.index == IndexOf(Whole(), c.fd)
      && (c.fd in channels ==> channels[c.fd] == c)
      && (c.fd !in channels ==> c.events == NONE_EVENT)
    }

    /** A new channel object takes the place of one that is not registered. */
    method NewChannel(fd: nat) returns (c: Channel)
      requires Valid() && fd !in channels
      modifies this`stale
      ensures Valid() && fresh(c) && c.fd == fd && Current(c) && channels == old(channels)
      ensures LegalOp(old(Whole()), Create(fd)) && Whole() == Apply(old(Whole()), Create(fd))
    {
      ApplySound(Whole(), Create(fd));
      c := new Channel(fd);
      Forget(fd);
    }

    ghost method Forget(fd: nat)
      modifies this`stale
      ensures View() == old(View()) && stale == old(stale) - {fd}
    {
      stale := stale - {fd};
    }

    /** The owner changes its interest and tells the poller. */
    method Change(c: Channel, i: Interest)
      requires Valid() && Current(c) && Accepts(Whole(), c.fd)
      modifies this, c
      ensures Valid() && Current(c) && channels == old(channels)[c.fd := c]
      ensures Whole() == Apply(old(Whole()), Update(c.fd, i))
    {
      ghost var was := View();
      ApplySound(Whole(), Update(c.fd, i));
      assert c.index >= 0 ==> was.channels[c.fd] == Entry(c.index, c.events) && c.index < |was.pollfds|;
      SetEvents(c, Changed(c.events, i));
      UpdateChannel(c, was);
    }

    method SetEvents(c: Channel, mask: Mask)
      requires Registered() && (c.fd in channels ==> channels[c.fd] == c)
      modifies c`events
      ensures c.events == mask
      ensures View() == old(View()).(channels := if c.fd in channels then old(View()).channels[c.fd := Entry(c.index, mask)]
                                                 else old(View()).channels)
    {
      assert forall fd :: fd in channels && fd != c.fd ==> channels[fd] != c;
      c.events := mask;
    }

    /** was is the table before the channel changed its events. */
    method UpdateChannel(c: Channel, ghost was: Table)
      requires Registered() && was.pollfds == pollfds
      requires if c.index < 0 then c.fd !in channels && was == View()
               else && c.fd in channels && channels[c.fd] == c && c.index < |pollfds|
                    && c.fd in was.channels && was.channels[c.fd].index == c.index
                    && was.channels[c.fd := Entry(c.index, c.events)] == View().channels
      modifies this`pollfds, this`channels, c`index
      ensures Registered() && channels == old(channels)[c.fd := c]
      ensures View() == if old(c.index) < 0 then Added(was, c.fd, c.events) else Rewritten(was, c.fd, c.events)
    {
      if c.index < 0 {
        AddChannel(c);
      } else {
        UpdateExisting(c, was);
      }
    }

    method AddChannel(c: Channel)
      requires Registered() && c.index < 0 && c.fd !in channels
      modifies this`pollfds, this`channels, c`index
      ensures Registered() && channels == old(channels)[c.fd := c] && View() == Added(old(View()), c.fd, c.events)
    {
      ghost var was := View();
      assert forall fd :: fd in channels ==> channels[fd] != c;
      pollfds := pollfds + [PollFd(c.fd, c.events, 0)];
      c.index := |pollfds| - 1;
      channels := channels[c.fd := c];
      assert View().channels == Added(was, c.fd, c.events).channels;
    }

    /** was is the table before the channel changed its events. */
    method UpdateExisting(c: Channel, ghost was: Table)
      requires Registered() && c.fd in channels && channels[c.fd] == c && 0 <= c.index < |pollfds|
      requires was.pollfds == pollfds
      requires c.fd in was.channels && was.channels[c.fd].index == c.index
      requires was.channels[c.fd := Entry(c.index, c.events)] == View().channels
      modifies this`pollfds
      ensures View() == Rewritten(was, c.fd, c.events)
    {
      var pfd := pollfds[c.index].(events := c.events, revents := 0);
      if c.IsNoneEvent() {
        pfd := pfd.(fd := -(c.fd as int) - 1);
      }
      pollfds := pollfds[c.index := pfd];
    }

    /** The removed channel keeps its index, so that the next update of it fails its assertions. */
    method RemoveChannel(c: Channel)
      requires Valid() && c.fd in channels && channels[c.fd] == c && c.IsNoneEvent()
      requires 0 <= c.index < |pollfds| && pollfds[c.index].fd == -(c.fd as int) - 1
      modifies this, channels.Values
      ensures Valid() && Current(c) && channels == old(channels) - {c.fd} && c.index == old(c.index)
      ensures Whole() == Apply(old(Whole()), Remove(c.fd)) && !Accepts(Whole(), c.fd)
    {
      ghost var r := Whole();
      RemovedSound(r, c.fd);
      RemovedIndex(r, c.fd);
      LastSlot(r.table, c.fd);
      SwapOut(c, r.table);
      Remember(c);
    }

    ghost method Remember(c: Channel)
      modifies this`stale
      ensures View() == old(View()) && stale == old(stale)[c.fd := c.index]
    {
      stale := stale[c.fd := c.index];
    }

    method SwapOut(c: Channel, ghost was: Table)
      requires Registered() && was == View() && c.fd in channels && channels[c.fd] == c
      requires 0 <= c.index < |pollfds| && Owner(pollfds[|pollfds| - 1].fd) in channels
      requires c.index < |pollfds| - 1 ==> Owner(pollfds[|pollfds| - 1].fd) != c.fd
      modifies this`pollfds, this`channels, channels.Values`index
      ensures Registered() && channels == old(channels) - {c.fd} && View() == Removed(was, c.fd)
      ensures c.index == old(c.index)
    {
      var idx, n := c.index, |pollfds| - 1;
      channels := channels - {c.fd};
      if idx == n {
        pollfds := pollfds[..n];
      } else {
        var atEnd := pollfds[n].fd;
        pollfds := pollfds[idx := pollfds[n]][n := pollfds[idx]];
        if atEnd < 0 { atEnd := -atEnd - 1; }
        assert forall fd :: fd in channels && fd != atEnd ==> channels[fd] != channels[atEnd];
        channels[atEnd].index := idx;
        pollfds := pollfds[..n];
      }
      assert View().channels == Removed(was, c.fd).channels;
    }

    /** poll reports nothing for an ignored slot, so every look-up succeeds. */
    method FillActiveChannels(numEvents: nat) returns (slots: seq<nat>, active: seq<Channel>)
      requires Valid()
      requires forall k :: 0 <= k < |pollfds| && pollfds[k].revents > 0 ==> pollfds[k].fd >= 0
      modifies channels.Values`revents
      ensures View() == old(View())
      ensures slots == ActiveSlots(pollfds)[..if numEvents <= |ActiveSlots(pollfds)| then numEvents
                                              else |ActiveSlots(pollfds)|]
      ensures Found(pollfds, channels.Keys, slots) && |active| == |slots|
      ensures forall i :: 0 <= i < |slots| ==>
                active[i] == channels[pollfds[slots[i]].fd] && active[i].revents == pollfds[slots[i]].revents
    {
      slots := FindActive(numEvents);
      active := Notify(slots);
    }

    method FindActive(numEvents: nat) returns (slots: seq<nat>)
      requires Valid()
      requires forall k :: 0 <= k < |pollfds| && pollfds[k].revents > 0 ==> pollfds[k].fd >= 0
      ensures Registered() && Found(pollfds, channels.Keys, slots)
      ensures slots == ActiveSlots(pollfds)[..if numEvents <= |ActiveSlots(pollfds)| then numEvents
                                              else |ActiveSlots(pollfds)|]
    {
      ghost var t := View();
      assert t.pollfds == pollfds && t.channels.Keys == channels.Keys;
      slots := ScanSlots(pollfds, numEvents);
      LookupsSucceed(t, |slots|);
    }

    method Notify(slots: seq<nat>) returns (active: seq<Channel>)
      requires Registered() && Found(pollfds, channels.Keys, slots)
      modifies channels.Values`revents
      ensures |active| == |slots| && View() == old(View())
      ensures forall i :: 0 <= i < |slots| ==>
                active[i] == channels[pollfds[slots[i]].fd] && active[i].revents == pollfds[slots[i]].revents
    {
      active := [];
      var i := 0;
      while i < |slots|
        invariant 0 <= i <= |slots| && |active| == i
        invariant forall j :: 0 <= j < i ==>
          active[j] == channels[pollfds[slots[j]].fd] && active[j].revents == pollfds[slots[j]].revents
      {
        var c := channels[pollfds[slots[i]].fd];
        assert forall j :: 0 <= j < i ==> active[j].fd == pollfds[slots[j]].fd;
        c.revents := pollfds[slots[i]].revents;
        active := active + [c];
        i := i + 1;
      }
    }
  }
}
