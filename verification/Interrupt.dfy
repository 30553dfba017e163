/**
 The interrupt channel: a multimap from due time to source used as a queue.

 Keys in order, equal keys in insertion order: the multimap is a sequence in iteration order.
*/
module Interrupt {
  import opened Common
  import opened Kernel

  datatype Event = Event(due: Time, source: string)
  datatype Channel = Channel(queue: seq<Event>, sent: nat, taken: nat, wake: Option<Time>)

  const EMPTY: Channel := Channel([], 0, 0, None)

  // ---------------------------------------------------------------- one call

  /** Insertion into the multimap: behind every event that is not later. */
  function Insert(q: seq<Event>, e: Event): (r: seq<Event>)
    ensures |r| == |q| + 1
  {
    if q == [] || q[0].due > e.due then [e] + q else [q[0]] + Insert(q[1..], e)
  }

  /** An immediate notification also triggers the wake-up event, which clears a pending one. */
  function NotifyNow(c: Channel, now: Time, source: string): Channel {
    Channel(Insert(c.queue, Event(now, source)), c.sent + 1, c.taken, None)
  }

  /** A delayed notification does not touch the wake-up event. */
  function NotifyLater(c: Channel, now: Time, source: string, delay: Time): Channel {
    c.(queue := Insert(c.queue, Event(delay + now, source)), sent := c.sent + 1)
  }

  function GetNext(c: Channel, now: Time): (Channel, Option<Event>) {
    if c.queue == [] then (c, None)
    else if c.queue[0].due <= now then (c.(queue := c.queue[1..], taken := c.taken + 1), Some(c.queue[0]))
    else (c.(wake := Notify(c.wake, c.queue[0].due)), None)
  }

  function ClearAll(c: Channel): Channel {
    c.(queue := [], wake := None)
  }

  // ---------------------------------------------------------------- stable sorting

  ghost predicate Sorted(q: seq<Event>) {
    forall i, j :: 0 <= i < j < |q| ==> q[i].due <= q[j].due
  }

  /** The events due at `t`, in order. */
  function At(q: seq<Event>, t: Time): seq<Event> {
    if q == [] then []
    else if q[0].due == t then [q[0]] + At(q[1..], t)
    else At(q[1..], t)
  }

  /** Same events, in due order, equal due times in the order given. */
  ghost predicate StableSortOf(q: seq<Event>, r: seq<Event>) {
    Sorted(r) && forall t :: At(r, t) == At(q, t)
  }

  function Sort(q: seq<Event>): (r: seq<Event>)
    ensures |r| == |q|
  {
    if q == [] then [] else Insert(Sort(q[..|q| - 1]), q[|q| - 1])
  }

  lemma {:induction false} AtAppend(a: seq<Event>, b: seq<Event>, t: Time)
    ensures At(a + b, t) == At(a, t) + At(b, t)
  {
    if a == [] {
      assert a + b == b;
    } else {
      assert (a + b)[1..] == a[1..] + b && (a + b)[0] == a[0];
      AtAppend(a[1..], b, t);
    }
  }

  lemma {:induction false} InsertMembers(q: seq<Event>, e: Event, x: Event)
    ensures x in Insert(q, e) <==> x == e || x in q
  {
    if q != [] && q[0].due <= e.due {
      InsertMembers(q[1..], e, x);
      assert x in q <==> x == q[0] || x in q[1..];
    }
  }

  lemma {:induction false} InsertSorted(q: seq<Event>, e: Event)
    requires Sorted(q)
    ensures Sorted(Insert(q, e))
  {
    if q != [] && q[0].due <= e.due {
      InsertSorted(q[1..], e);
      var rest := Insert(q[1..], e);
      forall i | 0 <= i < |rest| ensures q[0].due <= rest[i].due {
        InsertMembers(q[1..], e, rest[i]);
      }
    }
  }

  lemma {:induction false} InsertKeepsAll(q: seq<Event>, e: Event)
    ensures multiset(Insert(q, e)) == multiset(q) + multiset{e}
  {
    if q != [] && q[0].due <= e.due {
      InsertKeepsAll(q[1..], e);
      assert q == [q[0]] + q[1..];
    }
  }

  lemma {:induction false} InsertAt(q: seq<Event>, e: Event, t: Time)
    requires Sorted(q)
    ensures At(Insert(q, e), t) == At(q, t) + At([e], t)
  {
    if q == [] || q[0].due > e.due {
      assert ([e] + q)[1..] == q;
      if t == e.due {
        NoneBefore(q, t);
      }
    } else {
      InsertAt(q[1..], e, t);
      assert Insert(q, e)[1..] == Insert(q[1..], e);
    }
  }

  lemma {:induction false} NoneBefore(q: seq<Event>, t: Time)
    requires Sorted(q) && (q != [] ==> q[0].due > t)
    ensures At(q, t) == []
  {
    if q != [] {
      NoneBefore(q[1..], t);
    }
  }

  lemma InsertIsStable(q: seq<Event>, r: seq<Event>, e: Event)
    requires StableSortOf(q, r)
    ensures StableSortOf(q + [e], Insert(r, e))
  {
    InsertSorted(r, e);
    forall t ensures At(Insert(r, e), t) == At(q + [e], t) {
      InsertAt(r, e, t);
      AtAppend(q, [e], t);
    }
  }

  /** `Sort` sorts stably and loses nothing. */
  lemma {:induction false} SortIsStable(q: seq<Event>)
    ensures StableSortOf(q, Sort(q)) && multiset(Sort(q)) == multiset(q)
  {
    if q != [] {
      var init, e := q[..|q| - 1], q[|q| - 1];
      assert q == init + [e];
      SortIsStable(init);
      InsertIsStable(init, Sort(init), e);
      InsertKeepsAll(Sort(init), e);
    }
  }

  lemma FirstAt(q: seq<Event>)
    ensures q != [] ==> At(q, q[0].due) != [] && At(q, q[0].due)[0] == q[0]
  {
  }

  /** There is only one stable sort. */
  lemma {:induction false} StableSortUnique(a: seq<Event>, b: seq<Event>)
    requires Sorted(a) && Sorted(b) && forall t :: At(a, t) == At(b, t)
    ensures a == b
    decreases |a|
  {
    FirstAt(a);
    FirstAt(b);
    if a != [] && b != [] {
      if a[0].due < b[0].due {
        NoneBefore(b, a[0].due);
      } else if b[0].due < a[0].due {
        NoneBefore(a, b[0].due);
      }
      forall t ensures At(a[1..], t) == At(b[1..], t) {
        assert At(a, t) == At(b, t);
        assert t == a[0].due ==> At(a[1..], t) == At(a, t)[1..] && At(b[1..], t) == At(b, t)[1..];
      }
      StableSortUnique(a[1..], b[1..]);
    }
  }

  // ---------------------------------------------------------------- runs

  datatype Op = Send(source: string) | SendLater(source: string, delay: Time) | Take | Clear | Advance(d: Time)

  /** The channel with the clock and a record of what went in and out since the last clear, and out in all. */
  datatype World = World(now: Time, chan: Channel, sent: seq<Event>, taken: seq<Event>, everTaken: seq<Event>)

  function Step(w: World, op: Op): World {
    match op
    case Send(source) => w.(chan := NotifyNow(w.chan, w.now, source), sent := w.sent + [Event(w.now, source)])
    case SendLater(source, delay) =>
      w.(chan := NotifyLater(w.chan, w.now, source, delay), sent := w.sent + [Event(delay + w.now, source)])
    case Take =>
      var (c, e) := GetNext(w.chan, w.now);
      if e.None? then w.(chan := c)
      else w.(chan := c, taken := w.taken + [e.value], everTaken := w.everTaken + [e.value])
    case Clear => w.(chan := ClearAll(w.chan), sent := [], taken := [])
    case Advance(d) =>
      var c := w.chan;
      w.(now := w.now + d, chan := if c.wake.Some? && c.wake.value <= w.now + d then c.(wake := None) else c)
  }

  function Run(w: World, ops: seq<Op>): World
    decreases |ops|
  {
    if ops == [] then w else Run(Step(w, ops[0]), ops[1..])
  }

  ghost predicate Consistent(w: World) {
    && w.taken + w.chan.queue == Sort(w.sent)
    && Sorted(w.everTaken + w.chan.queue)
    && (forall e :: e in w.taken || e in w.everTaken ==> e.due <= w.now)
    && w.chan.taken + |w.chan.queue| <= w.chan.sent
  }

  /** Inserting an event not earlier than a prefix leaves the prefix alone. */
  lemma {:induction false} InsertBeyond(a: seq<Event>, q: seq<Event>, e: Event)
    requires forall x :: x in a ==> x.due <= e.due
    ensures Insert(a + q, e) == a + Insert(q, e)
  {
    if a == [] {
      assert a + q == q && a + Insert(q, e) == Insert(q, e);
    } else {
      assert a[0] in a && (a + q)[1..] == a[1..] + q;
      InsertBeyond(a[1..], q, e);
      assert a + Insert(q, e) == [a[0]] + (a[1..] + Insert(q, e));
    }
  }

  lemma SendKeeps(w: World, e: Event, wake: Option<Time>)
    requires Consistent(w) && w.now <= e.due
    ensures Consistent(w.(chan := Channel(Insert(w.chan.queue, e), w.chan.sent + 1, w.chan.taken, wake),
                          sent := w.sent + [e]))
  {
    assert (w.sent + [e])[..|w.sent|] == w.sent;
    InsertBeyond(w.taken, w.chan.queue, e);
    InsertBeyond(w.everTaken, w.chan.queue, e);
    InsertSorted(w.everTaken + w.chan.queue, e);
  }

  lemma SendNowKeeps(w: World, source: string)
    requires Consistent(w)
    ensures Consistent(Step(w, Send(source)))
  {
    SendKeeps(w, Event(w.now, source), None);
  }

  lemma SendLaterKeeps(w: World, source: string, delay: Time)
    requires Consistent(w)
    ensures Consistent(Step(w, SendLater(source, delay)))
  {
    SendKeeps(w, Event(delay + w.now, source), w.chan.wake);
  }

  lemma TakeKeeps(w: World)
    requires Consistent(w)
    ensures Consistent(Step(w, Take))
  {
    var q := w.chan.queue;
    if q != [] && q[0].due <= w.now {
      assert w.taken + [q[0]] + q[1..] == w.taken + q;
      assert w.everTaken + [q[0]] + q[1..] == w.everTaken + q;
    }
  }

  lemma ClearKeeps(w: World)
    requires Consistent(w)
    ensures Consistent(Step(w, Clear))
  {
    assert w.everTaken + [] == (w.everTaken + w.chan.queue)[..|w.everTaken|];
  }

  lemma AdvanceKeeps(w: World, d: Time)
    requires Consistent(w)
    ensures Consistent(Step(w, Advance(d)))
  {
  }

  lemma StepKeeps(w: World, op: Op)
    requires Consistent(w)
    ensures Consistent(Step(w, op))
  {
    match op
    case Send(source) => SendNowKeeps(w, source);
    case SendLater(source, delay) => SendLaterKeeps(w, source, delay);
    case Take => TakeKeeps(w);
    case Clear => ClearKeeps(w);
    case Advance(d) => AdvanceKeeps(w, d);
  }

  lemma {:induction false} RunKeeps(w: World, ops: seq<Op>)
    requires Consistent(w)
    ensures Consistent(Run(w, ops))
    decreases |ops|
  {
    if ops != [] {
      StepKeeps(w, ops[0]);
      RunKeeps(Step(w, ops[0]), ops[1..]);
    }
  }

  /**
   Over every run from an empty channel: what was delivered since the last clear, followed by
   what is still queued, is the stable sort by due time of what was sent since then; the
   deliveries of the whole run never go back in time and none came before it was due.
  */
  lemma DeliversStableSort(start: Time, ops: seq<Op>)
    ensures var w := Run(World(start, EMPTY, [], [], []), ops);
            w.taken + w.chan.queue == Sort(w.sent) && StableSortOf(w.sent, w.taken + w.chan.queue) &&
            multiset(w.taken) + multiset(w.chan.queue) == multiset(w.sent) &&
            Sorted(w.everTaken) && forall e :: e in w.everTaken ==> e.due <= w.now
  {
    var w0 := World(start, EMPTY, [], [], []);
    RunKeeps(w0, ops);
    var w := Run(w0, ops);
    SortIsStable(w.sent);
    assert w.everTaken == (w.everTaken + w.chan.queue)[..|w.everTaken|];
  }

  /** Without a clear the counters account for every event. */
  lemma {:induction false} CountersExactly(w: World, ops: seq<Op>)
    requires w.chan.sent == w.chan.taken + |w.chan.queue| && w.chan.sent == |w.sent| && w.chan.taken == |w.taken|
    requires forall k :: 0 <= k < |ops| ==> !ops[k].Clear?
    ensures var r := Run(w, ops);
            r.chan.sent == r.chan.taken + |r.chan.queue| && r.chan.sent == |r.sent| && r.chan.taken == |r.taken|
    decreases |ops|
  {
    if ops != [] {
      CountersExactly(Step(w, ops[0]), ops[1..]);
    }
  }

  function SendsIn(ops: seq<Op>): nat {
    if ops == [] then 0 else (if ops[0].Send? || ops[0].SendLater? then 1 else 0) + SendsIn(ops[1..])
  }

  /** With clears too: the counters count every notification and every delivery, and nothing resets them. */
  lemma {:induction false} CountersEver(w: World, ops: seq<Op>)
    ensures var r := Run(w, ops);
            r.chan.sent == w.chan.sent + SendsIn(ops) &&
            r.chan.taken + |w.everTaken| == w.chan.taken + |r.everTaken|
    decreases |ops|
  {
    if ops != [] {
      CountersEver(Step(w, ops[0]), ops[1..]);
    }
  }

  /** A take delivers exactly when some queued event is due, and then the first one; else it only arms the wake-up. */
  lemma GetNextExactly(c: Channel, now: Time)
    requires Sorted(c.queue)
    ensures var (r, e) := GetNext(c, now);
            (e.Some? <==> exists x :: x in c.queue && x.due <= now) && r.sent == c.sent &&
            (e.Some? ==> c.queue == [e.value] + r.queue && r.wake == c.wake && r.taken == c.taken + 1) &&
            (e.None? ==> r.queue == c.queue && r.taken == c.taken)
  {
    if c.queue != [] {
      assert c.queue[0] in c.queue;
    }
  }

  // ---------------------------------------------------------------- waking up

  /** A receiver that waits now is woken no later than the first event is due. */
  predicate WokenInTime(c: Channel) {
    c.queue == [] || (c.wake.Some? && c.wake.value <= c.queue[0].due)
  }

  /** Asking too early arms the wake-up. */
  lemma GetNextArms(c: Channel, now: Time)
    requires GetNext(c, now).1.None?
    ensures WokenInTime(GetNext(c, now).0)
  {
  }

  /** A wake-up it arms is at the earlier of the one armed before and the first due time. */
  lemma GetNextWake(c: Channel, now: Time)
    requires GetNext(c, now).1.None?
    ensures var wake := GetNext(c, now).0.wake;
            if c.queue == [] then wake == c.wake
            else wake.Some? && wake.value <= c.queue[0].due
                 && (wake == c.wake || wake.value == c.queue[0].due)
                 && (c.wake.Some? ==> wake.value <= c.wake.value)
  {
  }

  /** An armed wake-up lies ahead and belongs to a queued event. */
  ghost predicate Armed(w: World) {
    w.chan.wake.Some? ==>
      w.chan.wake.value > w.now && exists e :: e in w.chan.queue && e.due == w.chan.wake.value
  }

  lemma StepArmed(w: World, op: Op)
    requires Armed(w)
    ensures Armed(Step(w, op))
    ensures op.Send? || op.Clear? ==> Step(w, op).chan.wake.None?
    ensures op.SendLater? ==> Step(w, op).chan.wake == w.chan.wake
  {
    if w.chan.wake.Some? {
      var e :| e in w.chan.queue && e.due == w.chan.wake.value;
      if op.SendLater? {
        InsertMembers(w.chan.queue, Event(op.delay + w.now, op.source), e);
      }
    }
    if op.Take? && w.chan.queue != [] && w.chan.queue[0].due > w.now {
      assert w.chan.queue[0] in Step(w, op).chan.queue;
    }
  }

  /** In every run a wake-up that is still pending belongs to an event still queued. */
  lemma {:induction false} RunArmed(w: World, ops: seq<Op>)
    requires Armed(w)
    ensures Armed(Run(w, ops))
    decreases |ops|
  {
    if ops != [] {
      StepArmed(w, ops[0]);
      RunArmed(Step(w, ops[0]), ops[1..]);
    }
  }

  /** A delayed notification keeps the promise exactly when the armed wake-up is early enough already. */
  lemma SendLaterArmsExactly(c: Channel, now: Time, source: string, delay: Time)
    requires Sorted(c.queue) && WokenInTime(c)
    ensures WokenInTime(NotifyLater(c, now, source, delay)) <==>
            c.wake.Some? && c.wake.value <= delay + now
  {
  }

  /** A receiver that waits on an empty channel sleeps through a delayed notification. */
  lemma SleepsThrough()
    ensures !WokenInTime(NotifyLater(EMPTY, 0, "timer", 5))
  {
  }

  // ---------------------------------------------------------------- the channel

  class InterruptChannel {
    var scheduledEvents: seq<Event>
    var sent: nat
    var taken: nat
    var wake: Option<Time>

    /** The queue is in due order and the counters cover it. */
    ghost predicate Valid()
      reads this
    {
      Sorted(scheduledEvents) && taken + |scheduledEvents| <= sent
    }

    constructor ()
      ensures Valid() && AsChannel() == EMPTY
    {
      scheduledEvents, sent, taken, wake := [], 0, 0, None;
    }

    function AsChannel(): Channel
      reads this
    {
      Channel(scheduledEvents, sent, taken, wake)
    }

    method Notify(now: Time, source: string)
      requires Valid()
      modifies this
      ensures Valid()
      ensures AsChannel() == NotifyNow(old(AsChannel()), now, source)
    {
      InsertSorted(scheduledEvents, Event(now, source));
      scheduledEvents := Insert(scheduledEvents, Event(now, source));
      wake := None;
      sent := sent + 1;
    }

    method NotifyDelayed(now: Time, source: string, delay: Time)
      requires Valid()
      modifies this
      ensures Valid()
      ensures AsChannel() == NotifyLater(old(AsChannel()), now, source, delay)
    {
      InsertSorted(scheduledEvents, Event(delay + now, source));
      scheduledEvents := Insert(scheduledEvents, Event(delay + now, source));
      sent := sent + 1;
    }

    /** The source of the oldest due event, or nothing. */
    method TakeNext(now: Time) returns (source: Option<string>)
      requires Valid()
      modifies this
      ensures Valid()
      ensures var (c, e) := GetNext(old(AsChannel()), now);
              AsChannel() == c && source == if e.None? then None else Some(e.value.source)
      ensures source.Some? <==> exists e :: e in old(scheduledEvents) && e.due <= now
    {
      GetNextExactly(AsChannel(), now);
      if scheduledEvents == [] {
        return None;
      }
      var oldest := scheduledEvents[0];
      if oldest.due <= now {
        scheduledEvents := scheduledEvents[1..];
        taken := taken + 1;
        return Some(oldest.source);
      }
      wake := Kernel.Notify(wake, now + (oldest.due - now));
      return None;
    }

    method Clear()
      requires Valid()
      modifies this
      ensures Valid()
      ensures AsChannel() == ClearAll(old(AsChannel()))
    {
      scheduledEvents := [];
      wake := None;
    }

    method HasPending(now: Time) returns (r: bool)
      requires Valid()
      ensures r <==> exists e :: e in scheduledEvents && e.due <= now
    {
      if scheduledEvents == [] {
        return false;
      }
      assert scheduledEvents[0] in scheduledEvents;
      return scheduledEvents[0].due <= now;
    }

    /** Stops at the first event that is not due, which in a sorted queue misses none. */
    method Pending(now: Time) returns (result: nat)
      requires Valid()
      ensures result == |set i: nat | i < |scheduledEvents| && scheduledEvents[i].due <= now|
      ensures result > 0 <==> exists e :: e in scheduledEvents && e.due <= now
    {
      result := 0;
      while result < |scheduledEvents|
        invariant result <= |scheduledEvents|
        invariant forall i :: 0 <= i < result ==> scheduledEvents[i].due <= now
      {
        if scheduledEvents[result].due > now {
          break;
        }
        result := result + 1;
      }
      DueCount(scheduledEvents, now, result);
      assert result > 0 ==> scheduledEvents[0] in scheduledEvents;
    }
  }

  /** As many events are due as lie before the first one that is not. */
  lemma {:induction false} DueCount(q: seq<Event>, now: Time, n: nat)
    requires n <= |q| && forall i :: 0 <= i < |q| ==> (q[i].due <= now <==> i < n)
    ensures |set i: nat | i < |q| && q[i].due <= now| == n
  {
    var due := set i: nat | i < |q| && q[i].due <= now;
    if q == [] {
      assert due == {};
    } else {
      var init := q[..|q| - 1];
      var less := set i: nat | i < |init| && init[i].due <= now;
      if n == |q| {
        DueCount(init, now, n - 1);
        assert due == less + {n - 1};
      } else {
        DueCount(init, now, n);
        assert due == less;
      }
    }
  }
}
