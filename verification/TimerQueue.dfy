/** The timer queue as it is updated in place. */
module TimerQueue {
  import opened Wrappers
  import opened Timers

  const MICROS_PER_SECOND: int := 1000000
  const MIN_DELAY: int := 100

  datatype Timespec = Timespec(sec: int, nsec: int)

  /** The delay to a deadline, never below the shortest one, split into seconds and nanoseconds. */
  function HowMuchTimeFromNow(due: int, now: int): (ts: Timespec)
    ensures 0 <= ts.sec && 0 <= ts.nsec < 1000000000 && ts.nsec % 1000 == 0
    ensures ts.sec * MICROS_PER_SECOND + ts.nsec / 1000 == if due - now < MIN_DELAY then MIN_DELAY else due - now
  {
    var micros := if due - now < MIN_DELAY then MIN_DELAY else due - now;
    Timespec(micros / MICROS_PER_SECOND, (micros % MICROS_PER_SECOND) * 1000)
  }

  lemma {:induction false} InsertSplit(ts: seq<Entry>, e: Entry, i: nat)
    requires i <= |ts| && (forall j :: 0 <= j < i ==> !Less(e, ts[j])) && (i < |ts| ==> Less(e, ts[i]))
    ensures InsertSorted(ts, e) == ts[..i] + [e] + ts[i..]
    decreases i
  {
    if i > 0 {
      InsertSplit(ts[1..], e, i - 1);
      assert ts[..i] == [ts[0]] + ts[1..][..i - 1] && ts[1..][i - 1..] == ts[i..];
    }
  }

  class TimerQueue {
    var timers: seq<Entry>
    var table: map<Id, Timer>
    ghost var armed: Option<int>
    ghost var fired: seq<Firing>
    ghost var born: map<Id, bool>

    ghost function View(): Queue
      reads this
    {
      Queue(timers, table, armed, fired, born)
    }

    constructor ()
      ensures View() == EMPTY
    {
      timers, table, armed, fired, born := [], map[], None, [], map[];
    }

    method InsertTimer(id: Id) returns (earliestChanged: bool)
      requires id in table
      modifies this`timers
      ensures View() == Insert(old(View()), id)
      ensures earliestChanged == EarliestChanges(old(View()), table[id].expiration)
    {
      var e := Entry(table[id].expiration, id);
      earliestChanged := timers == [] || e.due < timers[0].due;
      var i := 0;
      while i < |timers| && !Less(e, timers[i])
        invariant 0 <= i <= |timers| && timers == old(timers)
        invariant forall j :: 0 <= j < i ==> !Less(e, timers[j])
      {
        i := i + 1;
      }
      InsertSplit(timers, e, i);
      timers := timers[..i] + [e] + timers[i..];
    }

    method AddTimerInLoop(t: NewTimer)
      modifies this
      ensures View() == Add(old(View()), t)
    {
      table := table[t.id := Timer(t.due, t.interval)];
      born := born[t.id := t.interval > 0.0];
      var earliestChanged := InsertTimer(t.id);
      if earliestChanged { armed := Some(t.due); }
    }

    method GetExpired(now: int) returns (expired: seq<Entry>)
      modifies this`timers
      ensures var k := DueCount(old(timers), now); expired == old(timers)[..k] && timers == old(timers)[k..]
    {
      var k := 0;
      while k < |timers| && timers[k].due <= now
        invariant 0 <= k <= |timers| && timers == old(timers)
        invariant DueCount(timers, now) == k + DueCount(timers[k..], now)
      {
        assert timers[k..][1..] == timers[k + 1..];
        k := k + 1;
      }
      expired := timers[..k];
      timers := timers[k..];
    }

    /** The callbacks of the expired timers, in order; the i-th adds the timers adds[i]. */
    method RunCallbacks(expired: seq<Entry>, adds: seq<seq<NewTimer>>, now: int)
      requires |adds| == |expired|
      modifies this
      ensures View() == RunAll(old(View()), expired, adds, now)
    {
      var i := 0;
      while i < |expired|
        invariant 0 <= i <= |expired|
        invariant RunAll(View(), expired[i..], adds[i..], now) == RunAll(old(View()), expired, adds, now)
      {
        ghost var q := View();
        fired := fired + [Firing(expired[i].id, expired[i].due, now)];
        AddTimers(adds[i]);
        assert expired[i..][1..] == expired[i + 1..] && adds[i..][1..] == adds[i + 1..];
        assert RunAll(q, expired[i..], adds[i..], now) == RunAll(View(), expired[i + 1..], adds[i + 1..], now);
        i := i + 1;
      }
    }

    method AddTimers(ts: seq<NewTimer>)
      modifies this
      ensures View() == AddAll(old(View()), ts)
    {
      var i := 0;
      while i < |ts|
        invariant 0 <= i <= |ts| && AddAll(View(), ts[i..]) == AddAll(old(View()), ts)
      {
        AddTimerInLoop(ts[i]);
        assert ts[i..][1..] == ts[i + 1..];
        i := i + 1;
      }
    }

    method Reset(expired: seq<Entry>, now: int, junk: int)
      requires CanReset(View(), expired, now)
      modifies this
      ensures View() == Rearm(ResetAll(old(View()), expired, now), junk)
    {
      var i := 0;
      while i < |expired|
        invariant 0 <= i <= |expired| && CanReset(View(), expired[i..], now)
        invariant ResetAll(View(), expired[i..], now) == ResetAll(old(View()), expired, now)
      {
        ghost var q := View();
        var id := expired[i].id;
        if table[id].Repeats() {
          table := table[id := table[id].Restarted(now)];
          var _ := InsertTimer(id);
        } else {
          table := table - {id};
        }
        assert View() == ResetOne(q, id, now);
        assert expired[i..][1..] == expired[i + 1..];
        i := i + 1;
      }
      var nextExpire := junk;
      if timers != [] { nextExpire := table[timers[0].id].expiration; }
      if nextExpire > 0 { armed := Some(nextExpire); }
    }

    method HandleRead(now: int, adds: seq<seq<NewTimer>>, junk: int)
      requires CanHandle(View(), adds, now)
      modifies this
      ensures View() == Timers.HandleRead(old(View()), adds, now, junk)
      ensures old(Inv(View())) && now > 0 ==> fired == old(fired) + Firings(old(timers), now)
    {
      if Inv(View()) && now > 0 { HandleReadEffect(View(), adds, now, junk); }
      var expired := GetExpired(now);
      RunCallbacks(expired, adds, now);
      Reset(expired, now, junk);
    }
  }
}
