/** The ring buffer under the asynchronous queue and the ring-buffer sink. */
module CircularQueue {

  /** A push into a queue of the given capacity: when it is full the oldest item goes. */
  function Pushed<T>(contents: seq<T>, capacity: nat, item: T): (r: seq<T>)
    ensures |contents| <= capacity ==> |r| <= capacity
  {
    if |contents| < capacity then contents + [item] else (contents + [item])[1..]
  }

  lemma ModWrap(x: nat, m: nat)
    requires 0 < m && x < 2 * m
    ensures x % m == if x < m then x else x - m
  {
    if x >= m {
      assert x == m + (x - m);
      assert x / m == 1;
    }
  }

  /** The items from head up to tail, around the end of the array. */
  ghost function Ring<T>(v: seq<T>, head: nat, tail: nat): seq<T>
    requires head <= |v| && tail <= |v|
  {
    if head <= tail then v[head..tail] else v[head..] + v[..tail]
  }

  function Succ(i: nat, n: nat): nat {
    if i + 1 < n then i + 1 else 0
  }

  /** The ring is full when the tail is just behind the head. */
  lemma RingSize<T>(v: seq<T>, head: nat, tail: nat)
    requires head < |v| && tail < |v|
    ensures |Ring(v, head, tail)| < |v|
    ensures |Ring(v, head, tail)| == |v| - 1 <==> Succ(tail, |v|) == head
  {}

  lemma RingAppend<T>(v: seq<T>, head: nat, tail: nat, item: T)
    requires head < |v| && tail < |v|
    ensures Succ(tail, |v|) != head ==> Ring(v[tail := item], head, Succ(tail, |v|)) == Ring(v, head, tail) + [item]
    ensures Succ(tail, |v|) == head
            ==> Ring(v[tail := item], Succ(head, |v|), head) == (Ring(v, head, tail) + [item])[1..]
  {
    var w := v[tail := item];
    if head <= tail {
      assert w[head..tail + 1] == v[head..tail] + [item];
      if tail + 1 == |v| && head != 0 { assert w[head..] + w[..0] == v[head..tail] + [item]; }
      if Succ(tail, |v|) == head {
        assert head == 0 && w == v[..tail] + [item];
        if |v| > 1 { assert w[1..] + w[..0] == w[1..]; }
      }
    } else {
      assert w[head..] == v[head..] && w[..tail + 1] == v[..tail] + [item];
      if tail + 1 == head {
        assert (v[head..] + v[..tail] + [item])[1..] == v[head + 1..] + w[..tail + 1];
        assert w[head + 1..] == v[head + 1..];
        if head + 1 == |v| { assert v[head + 1..] == []; }
      }
    }
  }

  class CircularQueue<T(0)> {
    var maxItems: nat
    var head: nat
    var tail: nat
    var overrunCounter: nat
    var v: array<T>

    ghost predicate Valid()
      reads this, v
    {
      && v.Length == maxItems
      && (if maxItems == 0 then head == tail == 0 else head < maxItems && tail < maxItems)
    }

    ghost function Contents(): seq<T>
      requires Valid()
      reads this, v
    {
      Ring(v[..], head, tail)
    }

    /** One slot is kept free to tell full from empty; a disabled queue has no slot at all. */
    ghost function Capacity(): nat
      reads this
    {
      if maxItems == 0 then 0 else maxItems - 1
    }

    constructor Disabled()
      ensures Valid() && fresh(v) && maxItems == 0 && Contents() == [] && overrunCounter == 0
    {
      maxItems, head, tail, overrunCounter := 0, 0, 0, 0;
      v := new T[0];
    }

    constructor (items: nat)
      ensures Valid() && fresh(v) && maxItems == items + 1 && Contents() == [] && overrunCounter == 0
    {
      maxItems, head, tail, overrunCounter := items + 1, 0, 0, 0;
      v := new T[items + 1];
    }

    method PushBack(item: T)
      requires Valid()
      modifies this, v
      ensures Valid() && v == old(v) && maxItems == old(maxItems)
      ensures maxItems == 0 ==> Contents() == old(Contents()) && overrunCounter == old(overrunCounter)
      ensures maxItems > 0 ==> Contents() == Pushed(old(Contents()), Capacity(), item)
      ensures maxItems > 0 ==> overrunCounter == old(overrunCounter) + if |old(Contents())| < Capacity() then 0 else 1
    {
      if maxItems > 0 {
        RingAppend(v[..], head, tail, item);
        RingSize(v[..], head, tail);
        ghost var was := v[..];
        v[tail] := item;
        assert v[..] == was[tail := item];
        ModWrap(tail + 1, maxItems);
        tail := (tail + 1) % maxItems;
        if tail == head {
          ModWrap(head + 1, maxItems);
          head := (head + 1) % maxItems;
          overrunCounter := overrunCounter + 1;
        }
      }
    }

    method Front() returns (item: T)
      requires Valid() && Contents() != []
      ensures item == Contents()[0]
    {
      item := v[head];
    }

    method Size() returns (n: nat)
      requires Valid()
      ensures n == |Contents()|
    {
      n := if tail >= head then tail - head else maxItems - (head - tail);
    }

    method At(i: nat) returns (item: T)
      requires Valid() && i < |Contents()|
      ensures item == Contents()[i]
    {
      ModWrap(head + i, maxItems);
      item := v[(head + i) % maxItems];
    }

    method PopFront()
      requires Valid() && Contents() != []
      modifies this`head
      ensures Valid() && Contents() == old(Contents())[1..]
    {
      ModWrap(head + 1, maxItems);
      head := (head + 1) % maxItems;
    }

    method Empty() returns (b: bool)
      requires Valid()
      ensures b <==> Contents() == []
    {
      b := tail == head;
    }

    /** A disabled queue is never full. */
    method Full() returns (b: bool)
      requires Valid()
      ensures b <==> maxItems > 0 && |Contents()| == Capacity()
    {
      if maxItems > 0 {
        ModWrap(tail + 1, maxItems);
        b := (tail + 1) % maxItems == head;
      } else {
        b := false;
      }
    }

    /** Takes over the other queue and leaves it disabled. */
    method MoveFrom(other: CircularQueue<T>)
      requires Valid() && other.Valid() && other != this
      modifies this, other
      ensures Valid() && other.Valid() && v == old(other.v) && fresh(other.v)
      ensures Contents() == old(other.Contents()) && overrunCounter == old(other.overrunCounter)
      ensures maxItems == old(other.maxItems)
      ensures other.maxItems == 0 && other.Contents() == [] && other.overrunCounter == 0
    {
      maxItems, head, tail, overrunCounter := other.maxItems, other.head, other.tail, other.overrunCounter;
      v := other.v;
      other.maxItems, other.head, other.tail, other.overrunCounter := 0, 0, 0, 0;
      var none := new T[0];
      other.v := none;
    }
  }

  /** A sink that keeps the most recent messages. */
  class RingBufferSink<T(0)> {
    const q: CircularQueue<T>

    constructor (items: nat)
      ensures q.Valid() && fresh(q) && fresh(q.v) && q.maxItems == items + 1 && q.Contents() == []
    {
      q := new CircularQueue(items);
    }

    method SinkIt(msg: T)
      requires q.Valid() && q.maxItems > 0
      modifies q, q.v
      ensures q.Valid() && q.v == old(q.v) && q.maxItems == old(q.maxItems)
      ensures q.Contents() == Pushed(old(q.Contents()), q.Capacity(), msg)
    {
      q.PushBack(msg);
    }

    /** The newest messages, oldest first; a limit of zero means all of them. */
    method LastRaw(lim: nat) returns (ret: seq<T>)
      requires q.Valid()
      ensures |ret| == if 0 < lim < |q.Contents()| then lim else |q.Contents()|
      ensures ret == q.Contents()[|q.Contents()| - |ret|..]
    {
      var available := q.Size();
      var n := if lim > 0 then (if lim < available then lim else available) else available;
      ret := [];
      ghost var all := q.Contents();
      var i := available - n;
      while i < available
        invariant available - n <= i <= available && available == |all|
        invariant ret == all[available - n..i]
      {
        var item := q.At(i);
        ret := ret + [item];
        i := i + 1;
      }
    }
  }

  datatype Op<T> = Push(item: T) | Pop

  /** A queue with the history of what went in and what came out at the old end. */
  datatype History<T> = History(contents: seq<T>, pushed: seq<T>, removed: seq<T>, pops: nat, overruns: nat)

  function Apply<T>(h: History<T>, capacity: nat, op: Op<T>): History<T>
    requires op.Pop? ==> h.contents != []
  {
    match op
    case Push(x) =>
      var h' := h.(contents := Pushed(h.contents, capacity, x), pushed := h.pushed + [x]);
      if |h.contents| < capacity then h'
      else h'.(removed := h.removed + [(h.contents + [x])[0]], overruns := h.overruns + 1)
    case Pop =>
      h.(contents := h.contents[1..], removed := h.removed + [h.contents[0]], pops := h.pops + 1)
  }

  ghost predicate LegalOps<T>(h: History<T>, capacity: nat, ops: seq<Op<T>>)
    decreases |ops|
  {
    ops == [] || ((ops[0].Pop? ==> h.contents != []) && LegalOps(Apply(h, capacity, ops[0]), capacity, ops[1..]))
  }

  ghost function Run<T>(h: History<T>, capacity: nat, ops: seq<Op<T>>): History<T>
    requires LegalOps(h, capacity, ops)
    decreases |ops|
  {
    if ops == [] then h else Run(Apply(h, capacity, ops[0]), capacity, ops[1..])
  }

  /** Nothing is lost but from the old end, and every loss is counted. */
  ghost predicate Accounted<T>(h: History<T>, capacity: nat) {
    && h.pushed == h.removed + h.contents
    && |h.removed| == h.pops + h.overruns
    && |h.contents| <= capacity
    && (h.overruns > 0 ==> |h.pushed| > capacity)
  }

  lemma {:induction false} RunAccounted<T>(h: History<T>, capacity: nat, ops: seq<Op<T>>)
    requires Accounted(h, capacity) && LegalOps(h, capacity, ops)
    ensures Accounted(Run(h, capacity, ops), capacity)
    decreases |ops|
  {
    if ops != [] {
      ApplyAccounted(h, capacity, ops[0]);
      RunAccounted(Apply(h, capacity, ops[0]), capacity, ops[1..]);
    }
  }

  lemma ApplyAccounted<T>(h: History<T>, capacity: nat, op: Op<T>)
    requires Accounted(h, capacity) && (op.Pop? ==> h.contents != [])
    ensures Accounted(Apply(h, capacity, op), capacity)
  {
    match op
    case Push(x) =>
      var all := h.contents + [x];
      assert h.pushed + [x] == h.removed + all;
      assert (h.removed + [all[0]]) + all[1..] == h.removed + all;
    case Pop =>
      assert (h.removed + [h.contents[0]]) + h.contents[1..] == h.removed + h.contents;
  }

  /** From an empty queue: what is stored is the newest of what was pushed, the rest popped or overrun. */
  lemma QueueConservation<T>(capacity: nat, ops: seq<Op<T>>)
    requires LegalOps(History([], [], [], 0, 0), capacity, ops)
    ensures var h := Run(History([], [], [], 0, 0), capacity, ops);
            && |h.pushed| == h.pops + |h.contents| + h.overruns
            && h.contents == h.pushed[|h.pushed| - |h.contents|..]
            && |h.contents| <= capacity
  {
    RunAccounted(History([], [], [], 0, 0), capacity, ops);
  }

  function Pushes<T>(items: seq<T>): (ops: seq<Op<T>>)
    ensures |ops| == |items|
  {
    if items == [] then [] else [Push(items[0])] + Pushes(items[1..])
  }

  function Newest<T>(all: seq<T>, n: nat): seq<T> {
    if |all| <= n then all else all[|all| - n..]
  }

  /** Pushed one after the other, the newest stay, as many as there is room for; the others are overruns. */
  lemma {:induction false} PushesKeepNewest<T>(h: History<T>, capacity: nat, items: seq<T>)
    requires |h.contents| <= capacity
    ensures LegalOps(h, capacity, Pushes(items))
    ensures var all, h' := h.contents + items, Run(h, capacity, Pushes(items));
            h'.contents == Newest(all, capacity) && h'.overruns == h.overruns + (|all| - |Newest(all, capacity)|)
    decreases |items|
  {
    if items == [] {
      assert h.contents + items == h.contents;
    } else {
      var x, rest := items[0], items[1..];
      assert Pushes(items)[1..] == Pushes(rest);
      PushesKeepNewest(Apply(h, capacity, Push(x)), capacity, rest);
      NewestStep(h.contents, capacity, x, rest);
      assert items == [x] + rest;
    }
  }

  lemma NewestStep<T>(contents: seq<T>, capacity: nat, x: T, rest: seq<T>)
    requires |contents| <= capacity
    ensures Newest(Pushed(contents, capacity, x) + rest, capacity) == Newest(contents + ([x] + rest), capacity)
  {
    assert (contents + [x]) + rest == contents + ([x] + rest);
    assert (contents + [x])[1..] + rest == ((contents + [x]) + rest)[1..];
  }

  /** The queue holds what the history says, and has counted its overruns. */
  ghost predicate Tracks<T(0)>(q: CircularQueue<T>, h: History<T>)
    reads q, q.v
  {
    q.Valid() && q.maxItems > 0 && q.Contents() == h.contents && q.overrunCounter == h.overruns
  }

  /** Each operation of the queue is one step of its history. */
  method Perform<T(0)>(q: CircularQueue<T>, op: Op<T>, ghost h: History<T>) returns (popped: seq<T>)
    requires Tracks(q, h) && (op.Pop? ==> h.contents != [])
    modifies q, q.v
    ensures Tracks(q, Apply(h, q.Capacity(), op)) && q.maxItems == old(q.maxItems)
    ensures popped == if op.Pop? then h.contents[..1] else []
  {
    match op
    case Push(item) =>
      q.PushBack(item);
      popped := [];
    case Pop =>
      var front := q.Front();
      q.PopFront();
      popped := [front];
  }
}
