/** The timer queue as a value: what adding timers and handling an alarm do to it, and what always holds of it. */
module Timers {
  import opened Wrappers

  type Id = nat

  const MICROSECONDS: real := 1000000.0

  datatype Timer = Timer(expiration: int, interval: real) {
    predicate Repeats() {
      interval > 0.0
    }

    /** A repeating timer is due again one interval after now. */
    function Restarted(now: int): Timer {
      this.(expiration := if Repeats() then now + (interval * MICROSECONDS).Floor else 0)
    }
  }

  /** The queue is ordered by due time, then by timer. */
  datatype Entry = Entry(due: int, id: Id)

  predicate Less(a: Entry, b: Entry) {
    a.due < b.due || (a.due == b.due && a.id < b.id)
  }

  datatype Firing = Firing(id: Id, due: int, at: int)

  /**
   * table holds the timers in existence, born every timer ever added with whether it repeats, armed the last
   * deadline the alarm was set for, and fired the callbacks run.
   */
  datatype Queue = Queue(
    timers: seq<Entry>, table: map<Id, Timer>, armed: Option<int>, fired: seq<Firing>, born: map<Id, bool>)

  const EMPTY: Queue := Queue([], map[], None, [], map[])

  datatype NewTimer = NewTimer(id: Id, due: int, interval: real)

  function InsertSorted(ts: seq<Entry>, e: Entry): seq<Entry> {
    if ts == [] || Less(e, ts[0]) then [e] + ts else [ts[0]] + InsertSorted(ts[1..], e)
  }

  function Insert(q: Queue, id: Id): Queue
    requires id in q.table
  {
    q.(timers := InsertSorted(q.timers, Entry(q.table[id].expiration, id)))
  }

  predicate EarliestChanges(q: Queue, due: int) {
    q.timers == [] || due < q.timers[0].due
  }

  function Add(q: Queue, t: NewTimer): Queue {
    var q' := q.(table := q.table[t.id := Timer(t.due, t.interval)], born := q.born[t.id := t.interval > 0.0]);
    Insert(q', t.id).(armed := if EarliestChanges(q, t.due) then Some(t.due) else q.armed)
  }

  function AddAll(q: Queue, ts: seq<NewTimer>): Queue
    decreases |ts|
  {
    if ts == [] then q else AddAll(Add(q, ts[0]), ts[1..])
  }

  /** How many entries at the front of the queue are due. */
  function DueCount(ts: seq<Entry>, now: int): (k: nat)
    ensures k <= |ts|
  {
    if ts == [] || ts[0].due > now then 0 else 1 + DueCount(ts[1..], now)
  }

  /** Runs the callbacks of the expired timers in order; the i-th one adds the timers adds[i]. */
  function RunAll(q: Queue, expired: seq<Entry>, adds: seq<seq<NewTimer>>, now: int): Queue
    requires |adds| == |expired|
    decreases |expired|
  {
    if expired == [] then q
    else
      var e := expired[0];
      RunAll(AddAll(q.(fired := q.fired + [Firing(e.id, e.due, now)]), adds[0]), expired[1..], adds[1..], now)
  }

  /** Restarts a repeating timer and puts it back; deletes any other. */
  function ResetOne(q: Queue, id: Id, now: int): Queue
    requires id in q.table
  {
    if q.table[id].Repeats() then Insert(q.(table := q.table[id := q.table[id].Restarted(now)]), id)
    else q.(table := q.table - {id})
  }

  ghost predicate CanReset(q: Queue, expired: seq<Entry>, now: int)
    decreases |expired|
  {
    if expired == [] then q.timers != [] ==> q.timers[0].id in q.table
    else expired[0].id in q.table && CanReset(ResetOne(q, expired[0].id, now), expired[1..], now)
  }

  function ResetAll(q: Queue, expired: seq<Entry>, now: int): (r: Queue)
    requires CanReset(q, expired, now)
    ensures r.timers != [] ==> r.timers[0].id in r.table
    decreases |expired|
  {
    if expired == [] then q else ResetAll(ResetOne(q, expired[0].id, now), expired[1..], now)
  }

  /** Sets the alarm for the first timer; with none left, for whatever value the deadline variable holds. */
  function Rearm(q: Queue, junk: int): Queue
    requires q.timers != [] ==> q.timers[0].id in q.table
  {
    var next := if q.timers != [] then q.table[q.timers[0].id].expiration else junk;
    if next > 0 then q.(armed := Some(next)) else q
  }

  ghost predicate FreshTimers(q: Queue, ts: seq<NewTimer>)
    decreases |ts|
  {
    ts == [] || (ts[0].id !in q.born && FreshTimers(Add(q, ts[0]), ts[1..]))
  }

  ghost predicate FreshAdds(q: Queue, expired: seq<Entry>, adds: seq<seq<NewTimer>>, now: int)
    requires |adds| == |expired|
    decreases |expired|
  {
    expired == [] ||
    (var q' := q.(fired := q.fired + [Firing(expired[0].id, expired[0].due, now)]);
     FreshTimers(q', adds[0]) && FreshAdds(AddAll(q', adds[0]), expired[1..], adds[1..], now))
  }

  // What holds.

  ghost predicate Sorted(ts: seq<Entry>) {
    forall i, j :: 0 <= i < j < |ts| ==> Less(ts[i], ts[j])
  }

  ghost function Ids(ts: seq<Entry>): set<Id> {
    set e | e in ts :: e.id
  }

  function Count(fired: seq<Firing>, id: Id): nat {
    if fired == [] then 0 else Count(fired[..|fired| - 1], id) + if fired[|fired| - 1].id == id then 1 else 0
  }

  ghost predicate NoRepeats(ts: seq<Entry>) {
    forall i, j :: 0 <= i < j < |ts| ==> ts[i].id != ts[j].id
  }

  /** Entries agree with their timers; out holds the expired entries that are not back in the queue yet. */
  ghost predicate InStep(q: Queue, out: seq<Entry>) {
    && Sorted(q.timers)
    && NoRepeats(out) && Ids(q.timers) !! Ids(out)
    && (forall e :: e in q.timers ==> e.id in q.table && q.table[e.id].expiration == e.due)
    && q.table.Keys == Ids(q.timers) + Ids(out)
    && (forall id :: id in q.table ==> id in q.born && (q.born[id] <==> q.table[id].Repeats()))
  }

  /** One-shots fire once and then are gone; repeating timers are never lost. unrun is the rest of the round. */
  ghost predicate Lives(q: Queue, unrun: seq<Entry>, out: seq<Entry>) {
    && (forall id :: id in q.born && !q.born[id] ==>
          Count(q.fired, id) == if id in Ids(q.timers) + Ids(unrun) then 0 else 1)
    && (forall id :: id in q.born && q.born[id] ==> id in Ids(q.timers) + Ids(out))
    && (forall f :: f in q.fired ==> f.id in q.born && f.due <= f.at)
  }

  ghost predicate Armed(q: Queue) {
    q.timers != [] ==> q.armed == Some(q.timers[0].due)
  }

  /** During a round only deadlines in the past are sure to be armed; the end of the round arms the others. */
  ghost predicate ArmedIfPast(q: Queue) {
    q.timers != [] && q.timers[0].due <= 0 ==> q.armed == Some(q.timers[0].due)
  }

  ghost predicate Inv(q: Queue) {
    InStep(q, []) && Lives(q, [], []) && Armed(q)
  }

  lemma {:induction false} InsertMembers(ts: seq<Entry>, e: Entry)
    ensures forall x :: x in InsertSorted(ts, e) <==> x == e || x in ts
    decreases |ts|
  {
    if ts != [] && !Less(e, ts[0]) {
      InsertMembers(ts[1..], e);
      assert forall x :: x in ts <==> x == ts[0] || x in ts[1..];
    }
  }

  lemma {:induction false} InsertOrder(ts: seq<Entry>, e: Entry)
    requires Sorted(ts) && e !in ts
    ensures Sorted(InsertSorted(ts, e))
    ensures InsertSorted(ts, e)[0].due == if ts == [] || e.due < ts[0].due then e.due else ts[0].due
    decreases |ts|
  {
    if ts != [] && !Less(e, ts[0]) {
      var s := InsertSorted(ts[1..], e);
      InsertOrder(ts[1..], e);
      InsertMembers(ts[1..], e);
      forall x | x in s
        ensures Less(ts[0], x)
      {
        if x != e {
          var k :| 0 <= k < |ts[1..]| && ts[1..][k] == x;
          assert ts[k + 1] == x;
        }
      }
      ConsSorted(ts[0], s);
    } else if ts != [] {
      forall x | x in ts
        ensures Less(e, x)
      {
        var k :| 0 <= k < |ts| && ts[k] == x;
      }
      ConsSorted(e, ts);
    }
  }

  lemma ConsSorted(e: Entry, ts: seq<Entry>)
    requires Sorted(ts) && forall x :: x in ts ==> Less(e, x)
    ensures Sorted([e] + ts)
  {
    var r := [e] + ts;
    forall i, j | 0 <= i < j < |r|
      ensures Less(r[i], r[j])
    {
      assert r[j] == ts[j - 1] && r[j] in ts;
      if i > 0 { assert r[i] == ts[i - 1]; }
    }
  }

  lemma InsertIds(ts: seq<Entry>, e: Entry)
    ensures Ids(InsertSorted(ts, e)) == Ids(ts) + {e.id}
  {
    InsertMembers(ts, e);
    var r := InsertSorted(ts, e);
    assert e in r;
    forall x | x in ts
      ensures x.id in Ids(r)
    {
      assert x in r;
    }
  }

  /** Putting a timer that is in existence but not queued into the queue. */
  lemma InsertInStep(q: Queue, id: Id, out: seq<Entry>)
    requires Sorted(q.timers) && id in q.table && id !in Ids(q.timers)
    requires forall e :: e in q.timers ==> e.id in q.table && q.table[e.id].expiration == e.due
    ensures var q' := Insert(q, id);
            && Sorted(q'.timers) && Ids(q'.timers) == Ids(q.timers) + {id}
            && (forall e :: e in q'.timers ==> e.id in q.table && q.table[e.id].expiration == e.due)
            && q'.timers[0].due == if EarliestChanges(q, q.table[id].expiration) then q.table[id].expiration
                                   else q.timers[0].due
  {
    var e := Entry(q.table[id].expiration, id);
    assert e !in q.timers;
    InsertMembers(q.timers, e);
    InsertOrder(q.timers, e);
    InsertIds(q.timers, e);
  }

  lemma AddInStep(q: Queue, t: NewTimer, out: seq<Entry>)
    requires InStep(q, out) && t.id !in q.born
    ensures InStep(Add(q, t), out)
    ensures Ids(Add(q, t).timers) == Ids(q.timers) + {t.id}
    ensures Add(q, t).timers[0].due == if EarliestChanges(q, t.due) then t.due else q.timers[0].due
  {
    assert t.id !in q.table;
    var q' := q.(table := q.table[t.id := Timer(t.due, t.interval)], born := q.born[t.id := t.interval > 0.0]);
    InsertInStep(q', t.id, out);
  }

  lemma {:induction false} CountAbsent(fired: seq<Firing>, id: Id)
    requires forall f :: f in fired ==> f.id != id
    ensures Count(fired, id) == 0
  {
    if fired != [] { CountAbsent(fired[..|fired| - 1], id); }
  }

  lemma AddLives(q: Queue, t: NewTimer, unrun: seq<Entry>, out: seq<Entry>)
    requires InStep(q, out) && Lives(q, unrun, out) && t.id !in q.born
    ensures Lives(Add(q, t), unrun, out)
  {
    AddInStep(q, t, out);
    CountAbsent(q.fired, t.id);
  }

  lemma {:induction false} AddAllKeeps(q: Queue, ts: seq<NewTimer>, unrun: seq<Entry>, out: seq<Entry>)
    requires InStep(q, out) && Lives(q, unrun, out) && ArmedIfPast(q) && FreshTimers(q, ts)
    ensures InStep(AddAll(q, ts), out) && Lives(AddAll(q, ts), unrun, out) && ArmedIfPast(AddAll(q, ts))
    ensures AddAll(q, ts).fired == q.fired
    decreases |ts|
  {
    if ts != [] {
      AddInStep(q, ts[0], out);
      AddLives(q, ts[0], unrun, out);
      AddAllKeeps(Add(q, ts[0]), ts[1..], unrun, out);
    }
  }

  lemma CountSnoc(fired: seq<Firing>, f: Firing, id: Id)
    ensures Count(fired + [f], id) == Count(fired, id) + if f.id == id then 1 else 0
  {
    assert (fired + [f])[..|fired|] == fired;
  }

  /** One callback run: its timer leaves the rest of the round. */
  lemma FireLives(q: Queue, unrun: seq<Entry>, out: seq<Entry>, now: int)
    requires unrun != [] && InStep(q, out) && Lives(q, unrun, out) && NoRepeats(unrun)
    requires (forall e :: e in unrun ==> e in out) && unrun[0].due <= now
    ensures Lives(q.(fired := q.fired + [Firing(unrun[0].id, unrun[0].due, now)]), unrun[1..], out)
  {
    var e, rest := unrun[0], unrun[1..];
    var f := Firing(e.id, e.due, now);
    assert e in unrun && e in out && e.id in Ids(out);
    assert e.id !in Ids(q.timers);
    IdsCons(unrun);
    forall id | id in q.born && !q.born[id]
      ensures Count(q.fired + [f], id) == if id in Ids(q.timers) + Ids(rest) then 0 else 1
    {
      CountSnoc(q.fired, f, id);
    }
  }

  lemma IdsCons(ts: seq<Entry>)
    requires ts != [] && NoRepeats(ts)
    ensures Ids(ts) == {ts[0].id} + Ids(ts[1..]) && ts[0].id !in Ids(ts[1..]) && NoRepeats(ts[1..])
  {
    assert forall x :: x in ts <==> x == ts[0] || x in ts[1..];
  }

  lemma {:induction false} RunAllKeeps(q: Queue, unrun: seq<Entry>, out: seq<Entry>, adds: seq<seq<NewTimer>>, now: int)
    requires |adds| == |unrun| && InStep(q, out) && Lives(q, unrun, out) && ArmedIfPast(q)
    requires NoRepeats(unrun) && (forall e :: e in unrun ==> e in out && e.due <= now)
    requires FreshAdds(q, unrun, adds, now)
    ensures var q' := RunAll(q, unrun, adds, now); InStep(q', out) && Lives(q', [], out) && ArmedIfPast(q')
    decreases |unrun|
  {
    if unrun != [] {
      var e := unrun[0];
      assert e in unrun;
      IdsCons(unrun);
      FireLives(q, unrun, out, now);
      var q1 := q.(fired := q.fired + [Firing(e.id, e.due, now)]);
      AddAllKeeps(q1, adds[0], unrun[1..], out);
      RunAllKeeps(AddAll(q1, adds[0]), unrun[1..], out, adds[1..], now);
    }
  }

  lemma RestartKeeps(q: Queue, out: seq<Entry>, now: int)
    requires out != [] && now > 0 && InStep(q, out) && Lives(q, [], out) && ArmedIfPast(q)
    requires out[0].id in q.table && q.table[out[0].id].Repeats()
    ensures var q' := ResetOne(q, out[0].id, now);
            InStep(q', out[1..]) && Lives(q', [], out[1..]) && ArmedIfPast(q')
  {
    var id := out[0].id;
    IdsCons(out);
    assert id in Ids(out) && id !in Ids(q.timers);
    var t := q.table[id].Restarted(now);
    assert t.expiration >= now;
    InsertInStep(q.(table := q.table[id := t]), id, out);
    PutBackInStep(q, ResetOne(q, id, now), out);
    PutBackLives(q, ResetOne(q, id, now), out);
  }

  /** q' has the first of the timers that are out back in its queue. */
  ghost predicate PutBack(q: Queue, q': Queue, out: seq<Entry>)
    requires out != []
  {
    && Ids(out) == {out[0].id} + Ids(out[1..]) && out[0].id !in Ids(out[1..]) && NoRepeats(out[1..])
    && Ids(q'.timers) == Ids(q.timers) + {out[0].id}
    && q'.table.Keys == q.table.Keys && q'.born == q.born && q'.fired == q.fired
  }

  lemma PutBackInStep(q: Queue, q': Queue, out: seq<Entry>)
    requires out != [] && InStep(q, out) && PutBack(q, q', out) && Sorted(q'.timers)
    requires forall e :: e in q'.timers ==> e.id in q'.table && q'.table[e.id].expiration == e.due
    requires forall id :: id in q.table ==> (q'.table[id].Repeats() <==> q.table[id].Repeats())
    ensures InStep(q', out[1..])
  {}

  lemma PutBackLives(q: Queue, q': Queue, out: seq<Entry>)
    requires out != [] && InStep(q, out) && Lives(q, [], out) && PutBack(q, q', out)
    requires out[0].id in q.table && q.table[out[0].id].Repeats()
    ensures Lives(q', [], out[1..])
  {
    assert forall id :: id in Ids(q.timers) + Ids(out) <==> id in Ids(q'.timers) + Ids(out[1..]);
  }

  lemma DeleteKeeps(q: Queue, out: seq<Entry>, now: int)
    requires out != [] && InStep(q, out) && Lives(q, [], out) && ArmedIfPast(q)
    requires out[0].id in q.table && !q.table[out[0].id].Repeats()
    ensures var q' := ResetOne(q, out[0].id, now);
            InStep(q', out[1..]) && Lives(q', [], out[1..]) && ArmedIfPast(q')
  {
    var id := out[0].id;
    IdsCons(out);
    assert id in Ids(out) && id !in Ids(q.timers);
    assert ResetOne(q, id, now).table.Keys == q.table.Keys - {id};
  }

  lemma ResetOneKeeps(q: Queue, out: seq<Entry>, now: int)
    requires out != [] && now > 0 && InStep(q, out) && Lives(q, [], out) && ArmedIfPast(q)
    ensures out[0].id in q.table
    ensures var q' := ResetOne(q, out[0].id, now);
            InStep(q', out[1..]) && Lives(q', [], out[1..]) && ArmedIfPast(q')
  {
    assert out[0].id in Ids(out);
    if q.table[out[0].id].Repeats() { RestartKeeps(q, out, now); } else { DeleteKeeps(q, out, now); }
  }

  lemma {:induction false} ResetAllKeeps(q: Queue, out: seq<Entry>, now: int)
    requires now > 0 && InStep(q, out) && Lives(q, [], out) && ArmedIfPast(q)
    ensures CanReset(q, out, now)
    ensures var q' := ResetAll(q, out, now); InStep(q', []) && Lives(q', [], []) && ArmedIfPast(q')
    decreases |out|
  {
    if out != [] {
      ResetOneKeeps(q, out, now);
      ResetAllKeeps(ResetOne(q, out[0].id, now), out[1..], now);
    }
  }

  lemma {:induction false} DueSplit(ts: seq<Entry>, now: int)
    requires Sorted(ts)
    ensures var k := DueCount(ts, now);
            (forall i :: 0 <= i < k ==> ts[i].due <= now) && forall i :: k <= i < |ts| ==> ts[i].due > now
    decreases |ts|
  {
    if ts != [] {
      var rest := ts[1..];
      assert Sorted(rest);
      DueSplit(rest, now);
      if ts[0].due > now {
        forall i | 0 < i < |ts|
          ensures ts[i].due > now
        {
          assert Less(ts[0], ts[i]);
        }
      } else {
        assert forall i :: 0 < i < |ts| ==> ts[i] == rest[i - 1];
      }
    }
  }

  ghost predicate CanHandle(q: Queue, adds: seq<seq<NewTimer>>, now: int) {
    var k := DueCount(q.timers, now);
    && |adds| == k
    && FreshAdds(q.(timers := q.timers[k..]), q.timers[..k], adds, now)
    && CanReset(RunAll(q.(timers := q.timers[k..]), q.timers[..k], adds, now), q.timers[..k], now)
  }

  /** An alarm: take out what is due, run it, put the repeating ones back, arm again. */
  ghost function HandleRead(q: Queue, adds: seq<seq<NewTimer>>, now: int, junk: int): Queue
    requires CanHandle(q, adds, now)
  {
    var k := DueCount(q.timers, now);
    var expired := q.timers[..k];
    Rearm(ResetAll(RunAll(q.(timers := q.timers[k..]), expired, adds, now), expired, now), junk)
  }

  /** Taking the due entries out of the queue. */
  lemma TakeOut(q: Queue, k: nat, now: int)
    requires Inv(q) && now > 0 && k == DueCount(q.timers, now)
    ensures var q1, out := q.(timers := q.timers[k..]), q.timers[..k];
            && InStep(q1, out) && Lives(q1, out, out) && ArmedIfPast(q1) && NoRepeats(out)
            && forall e :: e in out ==> e.due <= now
  {
    DistinctIds(q);
    SplitQueue(q.timers, k);
    DueSplit(q.timers, now);
  }

  lemma SplitQueue(ts: seq<Entry>, k: nat)
    requires k <= |ts| && Sorted(ts) && NoRepeats(ts)
    ensures Sorted(ts[k..]) && NoRepeats(ts[..k])
    ensures Ids(ts[k..]) !! Ids(ts[..k]) && Ids(ts) == Ids(ts[k..]) + Ids(ts[..k])
    ensures forall e :: e in ts[k..] ==> e in ts
  {
    var rest, out := ts[k..], ts[..k];
    assert ts == out + rest;
    assert forall e :: e in ts <==> e in out || e in rest;
    forall e, e' | e in rest && e' in out
      ensures e.id != e'.id
    {
      var i :| 0 <= i < |rest| && rest[i] == e;
      var j :| 0 <= j < |out| && out[j] == e';
      assert ts[j].id != ts[k + i].id;
    }
  }

  /** Two entries of one timer would have the same due time, hence be the same entry. */
  lemma DistinctIds(q: Queue)
    requires InStep(q, [])
    ensures NoRepeats(q.timers)
  {
    forall i, j | 0 <= i < j < |q.timers|
      ensures q.timers[i].id != q.timers[j].id
    {
      assert Less(q.timers[i], q.timers[j]);
      assert q.timers[i] in q.timers && q.timers[j] in q.timers;
    }
  }

  /** The whole round keeps the invariant, whatever timers the callbacks add. */
  lemma HandleReadKeeps(q: Queue, adds: seq<seq<NewTimer>>, now: int, junk: int)
    requires Inv(q) && now > 0 && |adds| == DueCount(q.timers, now)
    requires var k := |adds|; FreshAdds(q.(timers := q.timers[k..]), q.timers[..k], adds, now)
    ensures CanHandle(q, adds, now) && Inv(HandleRead(q, adds, now, junk))
  {
    var k := |adds|;
    var q1, out := q.(timers := q.timers[k..]), q.timers[..k];
    TakeOut(q, k, now);
    RunAllKeeps(q1, out, out, adds, now);
    var q2 := RunAll(q1, out, adds, now);
    ResetAllKeeps(q2, out, now);
    RearmKeeps(ResetAll(q2, out, now), junk);
  }

  lemma RearmKeeps(q: Queue, junk: int)
    requires InStep(q, []) && Lives(q, [], []) && ArmedIfPast(q)
    requires q.timers != [] ==> q.timers[0].id in q.table
    ensures Inv(Rearm(q, junk))
  {
    if q.timers != [] { assert q.timers[0] in q.timers; }
  }

  lemma AddKeeps(q: Queue, t: NewTimer)
    requires Inv(q) && t.id !in q.born
    ensures Inv(Add(q, t))
  {
    AddInStep(q, t, []);
    AddLives(q, t, [], []);
  }

  // What an alarm does, said of the queue before it.

  /** One firing for each entry that is due, in order. */
  function Firings(ts: seq<Entry>, now: int): seq<Firing> {
    if ts == [] then []
    else (if ts[0].due <= now then [Firing(ts[0].id, ts[0].due, now)] else []) + Firings(ts[1..], now)
  }

  /** When a repeating timer is due again: one interval, in whole microseconds, after now. */
  function NextDue(t: Timer, now: int): int {
    now + (t.interval * 1000000.0).Floor
  }

  /** The new entries of the repeating timers that are due. */
  function Restarts(table: map<Id, Timer>, ts: seq<Entry>, now: int): seq<Entry>
    requires forall e :: e in ts ==> e.id in table
  {
    if ts == [] then []
    else
      var e := ts[0];
      (if e.due <= now && table[e.id].interval > 0.0 then [Entry(NextDue(table[e.id], now), e.id)] else [])
      + Restarts(table, ts[1..], now)
  }

  function Entries(ts: seq<NewTimer>): seq<Entry> {
    if ts == [] then [] else [Entry(ts[0].due, ts[0].id)] + Entries(ts[1..])
  }

  function AllEntries(adds: seq<seq<NewTimer>>): seq<Entry> {
    if adds == [] then [] else Entries(adds[0]) + AllEntries(adds[1..])
  }

  lemma AddEffect(q: Queue, t: NewTimer)
    ensures var q' := Add(q, t);
            && (forall e :: e in q'.timers <==> e in q.timers || e == Entry(t.due, t.id))
            && q'.fired == q.fired && q'.table == q.table[t.id := Timer(t.due, t.interval)]
            && q'.born == q.born[t.id := t.interval > 0.0]
  {
    InsertMembers(q.timers, Entry(t.due, t.id));
  }

  /** Timers that exist stay as they are, because the added ones are new. */
  ghost predicate KeepsOld(table: map<Id, Timer>, table': map<Id, Timer>) {
    forall id :: id in table ==> id in table' && table'[id] == table[id]
  }

  ghost predicate TableBorn(q: Queue) {
    forall id :: id in q.table ==> id in q.born
  }

  lemma {:induction false} AddAllEffect(q: Queue, ts: seq<NewTimer>)
    requires TableBorn(q) && FreshTimers(q, ts)
    ensures var q' := AddAll(q, ts);
            && (forall e :: e in q'.timers <==> e in q.timers || e in Entries(ts))
            && q'.fired == q.fired && KeepsOld(q.table, q'.table) && TableBorn(q')
    decreases |ts|
  {
    if ts != [] {
      AddEffect(q, ts[0]);
      AddAllEffect(Add(q, ts[0]), ts[1..]);
    }
  }

  function Fires(ts: seq<Entry>, now: int): seq<Firing> {
    if ts == [] then [] else [Firing(ts[0].id, ts[0].due, now)] + Fires(ts[1..], now)
  }

  lemma {:induction false} RunAllEffect(q: Queue, expired: seq<Entry>, adds: seq<seq<NewTimer>>, now: int)
    requires |adds| == |expired| && TableBorn(q) && FreshAdds(q, expired, adds, now)
    ensures var q' := RunAll(q, expired, adds, now);
            && (forall e :: e in q'.timers <==> e in q.timers || e in AllEntries(adds))
            && q'.fired == q.fired + Fires(expired, now) && KeepsOld(q.table, q'.table)
    decreases |expired|
  {
    if expired == [] {
      assert q.fired + [] == q.fired;
    } else {
      var f := Firing(expired[0].id, expired[0].due, now);
      var q1 := q.(fired := q.fired + [f]);
      AddAllEffect(q1, adds[0]);
      RunAllEffect(AddAll(q1, adds[0]), expired[1..], adds[1..], now);
      assert (q.fired + [f]) + Fires(expired[1..], now) == q.fired + ([f] + Fires(expired[1..], now));
    }
  }

  /** The entries of the repeating ones among the expired timers, put back. */
  function Restarted(table: map<Id, Timer>, expired: seq<Entry>, now: int): seq<Entry>
    requires forall e :: e in expired ==> e.id in table
  {
    if expired == [] then []
    else
      var e := expired[0];
      (if table[e.id].interval > 0.0 then [Entry(NextDue(table[e.id], now), e.id)] else [])
      + Restarted(table, expired[1..], now)
  }

  lemma {:induction false} RestartedSame(table: map<Id, Timer>, table': map<Id, Timer>, expired: seq<Entry>, now: int)
    requires forall e :: e in expired ==> e.id in table && e.id in table' && table'[e.id] == table[e.id]
    ensures Restarted(table', expired, now) == Restarted(table, expired, now)
    decreases |expired|
  {
    if expired != [] {
      assert forall e :: e in expired[1..] ==> e in expired;
      RestartedSame(table, table', expired[1..], now);
    }
  }

  lemma ResetOneEffect(q: Queue, e: Entry, now: int)
    requires e.id in q.table
    ensures var q' := ResetOne(q, e.id, now);
            && q'.fired == q.fired
            && (forall id :: id in q.table && id != e.id ==> id in q'.table && q'.table[id] == q.table[id])
            && forall x :: x in q'.timers <==> x in q.timers || x in Restarted(q.table, [e], now)
  {
    assert [e][1..] == [];
    var t := q.table[e.id];
    if t.Repeats() {
      InsertMembers(q.timers, Entry(t.Restarted(now).expiration, e.id));
      assert t.Restarted(now).expiration == NextDue(t, now);
    }
  }

  lemma {:induction false} ResetAllEffect(q: Queue, expired: seq<Entry>, now: int)
    requires CanReset(q, expired, now) && NoRepeats(expired) && forall e :: e in expired ==> e.id in q.table
    ensures var q' := ResetAll(q, expired, now);
            && q'.fired == q.fired
            && forall x :: x in q'.timers <==> x in q.timers || x in Restarted(q.table, expired, now)
    decreases |expired|
  {
    if expired != [] {
      var e, rest := expired[0], expired[1..];
      var q1 := ResetOne(q, e.id, now);
      ResetOneEffect(q, e, now);
      IdsCons(expired);
      assert forall x :: x in rest ==> x in expired && x.id in Ids(rest);
      RestartedSame(q.table, q1.table, rest, now);
      ResetAllEffect(q1, rest, now);
      assert Restarted(q.table, expired, now) == Restarted(q.table, [e], now) + Restarted(q.table, rest, now) by {
        assert [e][1..] == [];
      }
    }
  }

  /** What is due is at the front. */
  lemma DueFirst(ts: seq<Entry>, table: map<Id, Timer>, now: int)
    requires Sorted(ts) && forall e :: e in ts ==> e.id in table
    ensures var k := DueCount(ts, now);
            && (forall e :: e in ts[..k] ==> e in ts)
            && Firings(ts, now) == Fires(ts[..k], now)
            && Restarts(table, ts, now) == Restarted(table, ts[..k], now)
            && forall e :: e in ts[k..] <==> e in ts && e.due > now
  {
    var k := DueCount(ts, now);
    DueSplit(ts, now);
    DueFront(ts, table, now, k);
    DueRest(ts, now, k);
  }

  lemma DueRest(ts: seq<Entry>, now: int, k: nat)
    requires k <= |ts|
    requires (forall i :: 0 <= i < k ==> ts[i].due <= now) && forall i :: k <= i < |ts| ==> ts[i].due > now
    ensures (forall e :: e in ts[..k] ==> e in ts) && forall e :: e in ts[k..] <==> e in ts && e.due > now
  {
    forall e | e in ts && e.due > now
      ensures e in ts[k..]
    {
      var i :| 0 <= i < |ts| && ts[i] == e;
      assert ts[k..][i - k] == e;
    }
  }

  lemma {:induction false} DueFront(ts: seq<Entry>, table: map<Id, Timer>, now: int, k: nat)
    requires k <= |ts| && forall e :: e in ts ==> e.id in table
    requires (forall i :: 0 <= i < k ==> ts[i].due <= now) && forall i :: k <= i < |ts| ==> ts[i].due > now
    ensures Firings(ts, now) == Fires(ts[..k], now)
    ensures Restarts(table, ts, now) == Restarted(table, ts[..k], now)
    decreases |ts|
  {
    if k == 0 {
      NothingDue(ts, table, now);
    } else {
      assert forall e :: e in ts[1..] ==> e in ts;
      DueFront(ts[1..], table, now, k - 1);
      assert ts[..k][0] == ts[0] && ts[..k][1..] == ts[1..][..k - 1];
    }
  }

  lemma {:induction false} NothingDue(ts: seq<Entry>, table: map<Id, Timer>, now: int)
    requires (forall i :: 0 <= i < |ts| ==> ts[i].due > now) && forall e :: e in ts ==> e.id in table
    ensures Firings(ts, now) == [] && Restarts(table, ts, now) == []
    decreases |ts|
  {
    if ts != [] {
      assert forall e :: e in ts[1..] ==> e in ts;
      NothingDue(ts[1..], table, now);
    }
  }

  /**
   * An alarm runs one callback for each entry that is due, in order, repeating or not; afterwards the queue
   * holds what was not due, the repeating timers that were, one interval on, and what the callbacks added.
   */
  lemma HandleReadEffect(q: Queue, adds: seq<seq<NewTimer>>, now: int, junk: int)
    requires Inv(q) && now > 0 && CanHandle(q, adds, now)
    ensures forall e :: e in q.timers ==> e.id in q.table
    ensures var q' := HandleRead(q, adds, now, junk);
            && q'.fired == q.fired + Firings(q.timers, now)
            && forall e :: e in q'.timers
                           <==> (e in q.timers && e.due > now) || e in Restarts(q.table, q.timers, now) || e in AllEntries(adds)
  {
    var k := DueCount(q.timers, now);
    var q1, out := q.(timers := q.timers[k..]), q.timers[..k];
    TakeOut(q, k, now);
    DueFirst(q.timers, q.table, now);
    RunAllEffect(q1, out, adds, now);
    var q2 := RunAll(q1, out, adds, now);
    RestartedSame(q.table, q2.table, out, now);
    ResetAllEffect(q2, out, now);
  }

  /** A timer of k whole seconds is due again k million microseconds after it has run. */
  lemma WholeSeconds(t: Timer, k: nat, now: int)
    requires t.interval == k as real && k > 0
    ensures t.Restarted(now).expiration == now + 1000000 * k == NextDue(t, now)
  {
    assert t.interval * 1000000.0 == (1000000 * k) as real;
  }

  datatype Step = AddTimer(t: NewTimer) | Alarm(adds: seq<seq<NewTimer>>, now: int, junk: int)

  /** New timers are new objects, and the clock is past the epoch. */
  ghost predicate Enabled(q: Queue, step: Step) {
    match step
    case AddTimer(t) => t.id !in q.born
    case Alarm(adds, now, _) => now > 0 && CanHandle(q, adds, now)
  }

  ghost function Next(q: Queue, step: Step): Queue
    requires Enabled(q, step)
  {
    match step
    case AddTimer(t) => Add(q, t)
    case Alarm(adds, now, junk) => HandleRead(q, adds, now, junk)
  }

  ghost predicate Legal(q: Queue, steps: seq<Step>)
    decreases |steps|
  {
    steps == [] || (Enabled(q, steps[0]) && Legal(Next(q, steps[0]), steps[1..]))
  }

  ghost function Exec(q: Queue, steps: seq<Step>): Queue
    requires Legal(q, steps)
    decreases |steps|
  {
    if steps == [] then q else Exec(Next(q, steps[0]), steps[1..])
  }

  lemma {:induction false} ExecKeeps(q: Queue, steps: seq<Step>)
    requires Inv(q) && Legal(q, steps)
    ensures Inv(Exec(q, steps))
    decreases |steps|
  {
    if steps != [] {
      match steps[0] {
        case AddTimer(t) => AddKeeps(q, t);
        case Alarm(adds, now, junk) => HandleReadKeeps(q, adds, now, junk);
      }
      ExecKeeps(Next(q, steps[0]), steps[1..]);
    }
  }

  /** The firings of a run, read off its alarms and the queue before each. */
  ghost function AllFirings(q: Queue, steps: seq<Step>): seq<Firing>
    requires Legal(q, steps)
    decreases |steps|
  {
    if steps == [] then []
    else (if steps[0].Alarm? then Firings(q.timers, steps[0].now) else []) + AllFirings(Next(q, steps[0]), steps[1..])
  }

  lemma {:induction false} ExecFires(q: Queue, steps: seq<Step>)
    requires Inv(q) && Legal(q, steps)
    ensures Exec(q, steps).fired == q.fired + AllFirings(q, steps)
    decreases |steps|
  {
    if steps == [] {
      assert q.fired + [] == q.fired;
    } else {
      var first, q' := StepFires(q, steps[0]);
      ExecFires(q', steps[1..]);
      JoinFirings(q.fired, first, AllFirings(q', steps[1..]));
    }
  }

  lemma JoinFirings(a: seq<Firing>, b: seq<Firing>, c: seq<Firing>)
    ensures (a + b) + c == a + (b + c)
  {}

  lemma StepFires(q: Queue, step: Step) returns (first: seq<Firing>, q': Queue)
    requires Inv(q) && Enabled(q, step)
    ensures q' == Next(q, step) && Inv(q') && q'.fired == q.fired + first
    ensures first == if step.Alarm? then Firings(q.timers, step.now) else []
  {
    first, q' := if step.Alarm? then Firings(q.timers, step.now) else [], Next(q, step);
    match step
    case AddTimer(t) =>
      AddKeeps(q, t);
      AddEffect(q, t);
      assert q.fired + [] == q.fired;
    case Alarm(adds, now, junk) =>
      HandleReadKeeps(q, adds, now, junk);
      HandleReadEffect(q, adds, now, junk);
  }

  /**
   * In every run, between alarms: the alarm is set for the first due time; every entry agrees with its timer;
   * each alarm has run the callbacks that were due, none early and none twice; a one-shot is queued or has run
   * exactly once; a repeating timer is always queued.
   */
  lemma TimersKept(steps: seq<Step>)
    requires Legal(EMPTY, steps)
    ensures var q := Exec(EMPTY, steps);
            && (q.timers != [] ==> q.armed == Some(q.timers[0].due)
                                   && forall e :: e in q.timers ==> q.timers[0].due <= e.due)
            && (forall e :: e in q.timers ==> e.id in q.table && q.table[e.id].expiration == e.due)
            && q.fired == AllFirings(EMPTY, steps) && (forall f :: f in q.fired ==> f.due <= f.at)
            && (forall id :: id in q.born ==>
                  if q.born[id] then id in Ids(q.timers)
                  else Count(q.fired, id) == if id in Ids(q.timers) then 0 else 1)
  {
    ExecKeeps(EMPTY, steps);
    ExecFires(EMPTY, steps);
    assert [] + AllFirings(EMPTY, steps) == AllFirings(EMPTY, steps);
    var q := Exec(EMPTY, steps);
    forall e | e in q.timers
      ensures q.timers[0].due <= e.due
    {
      var i :| 0 <= i < |q.timers| && q.timers[i] == e;
      if i > 0 { assert Less(q.timers[0], q.timers[i]); }
    }
  }
}
