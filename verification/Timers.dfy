/** The timers of a libuv loop, on top of the heap. */
module Timers {
  import opened Common
  import opened Heap

  const MAX64: nat := TWO_64 - 1
  const INT_MAX: int := 0x7FFF_FFFF

  datatype Status = Ok | EINVAL

  /** now + delay with 64-bit wrap-around, cut to the maximum when it wrapped. */
  function Deadline(now: nat, delay: nat): (d: nat)
    requires now <= MAX64 && delay <= MAX64
    ensures d <= MAX64
    ensures d == if now + delay > MAX64 then MAX64 else now + delay
  {
    var sum := (now + delay) % TWO_64;
    if sum < delay then MAX64 else sum
  }

  /** A 64-bit counter wraps around. */
  function Increment(n: nat): (r: nat)
    ensures r <= MAX64
  {
    (n + 1) % TWO_64
  }

  class Loop {
    var time: nat
    var timerCounter: nat
    var activeHandles: int
    const heap: TimerHeap
    ghost var handles: set<Timer>

    constructor (now: nat)
      requires now <= MAX64
      ensures Valid() && handles == {} && time == now && fresh(heap)
    {
      time, timerCounter, activeHandles, handles := now, 0, 0, {};
      heap := new TimerHeap();
    }

    ghost predicate Valid()
      reads this, heap, heap.slots, handles
    {
      && heap.Valid() && time <= MAX64 && timerCounter <= MAX64
      && heap.Nodes() <= handles
      && (forall t :: t in handles ==> HandleOk(t))
      && activeHandles == |Counted()|
    }

    /** A timer is in the heap exactly when it is active, and then it can fire. */
    ghost predicate HandleOk(t: Timer)
      reads heap`slots, t`active, t`hasCallback, t`closing, t`timeout, t`repeat
    {
      && (t.active <==> t in heap.Nodes())
      && (t.active ==> t.hasCallback && !t.closing)
      && t.timeout <= MAX64 && t.repeat <= MAX64
    }

    /** The handles that keep the loop alive. */
    ghost function Counted(): (r: set<Timer>)
      reads this`handles, handles`active, handles`referenced
    {
      set t | t in handles && t.active && t.referenced
    }

    /** uv_timer_init: the loop gets a new handle, which is not running. */
    method Init() returns (handle: Timer)
      requires Valid()
      modifies this`handles
      ensures Valid() && fresh(handle) && handles == old(handles) + {handle}
      ensures !handle.active && !handle.closing && !handle.hasCallback && handle.referenced && handle.repeat == 0
      ensures forall t :: t in old(handles) ==> Look(t) == old(Look(t))
    {
      handle := new Timer();
      ghost var counted := Counted();
      assert forall t :: t in heap.slots ==> t in heap.Nodes();
      handles := handles + {handle};
      assert Counted() == counted;
      forall t | t in handles ensures HandleOk(t) {
        assert t != handle ==> old(HandleOk(t));
      }
    }

    /** uv_timer_stop. */
    method Stop(handle: Timer)
      requires Valid() && handle in handles
      modifies this`activeHandles, heap, heap.Nodes()`left, heap.Nodes()`right, heap.Nodes()`parent, handle`active
      ensures Valid() && !handle.active
      ensures heap.Nodes() == old(heap.Nodes()) - {handle}
    {
      if !handle.active {
        return;
      }
      ghost var counted := Counted();
      heap.Remove(handle);
      assert Counted() == counted;
      HandleStop(handle);
      assert heap.Valid();
      forall t | t in handles ensures HandleOk(t) {
        assert old(HandleOk(t));
      }
    }

    /** uv__handle_stop: a handle that was active no longer counts. */
    method HandleStop(handle: Timer)
      requires handle in handles && activeHandles == |Counted()|
      modifies this`activeHandles, handle`active
      ensures !handle.active && activeHandles == |Counted()|
      ensures !old(handle.active) ==> unchanged(this)
    {
      if !handle.active {
        return;
      }
      ghost var counted := Counted();
      handle.active := false;
      if handle.referenced {
        activeHandles := activeHandles - 1;
      }
      assert Counted() == counted - {handle};
    }

    /** Set the fields of a handle that is not in the heap, and insert it. */
    method Arm(handle: Timer, deadline: nat, repeat: nat)
      requires heap.Valid() && handle !in heap.Nodes()
      modifies this`timerCounter, heap, heap.Nodes()`left, heap.Nodes()`right, heap.Nodes()`parent, handle
      ensures heap.Valid() && heap.Nodes() == old(heap.Nodes()) + {handle}
      ensures handle.timeout == deadline && handle.repeat == repeat && handle.hasCallback
      ensures handle.startId == old(timerCounter) && timerCounter == Increment(old(timerCounter))
      ensures handle.active == old(handle.active) && handle.referenced == old(handle.referenced)
      ensures handle.closing == old(handle.closing)
    {
      assert handle !in heap.slots;
      SetFields(handle, deadline, repeat);
      assert heap.Valid();
      heap.Insert(handle);
    }

    method SetFields(handle: Timer, deadline: nat, repeat: nat)
      modifies this`timerCounter, handle`hasCallback, handle`timeout, handle`repeat, handle`startId
      ensures handle.timeout == deadline && handle.repeat == repeat && handle.hasCallback
      ensures handle.startId == old(timerCounter) && timerCounter == Increment(old(timerCounter))
    {
      handle.hasCallback, handle.timeout, handle.repeat, handle.startId := true, deadline, repeat, timerCounter;
      timerCounter := Increment(timerCounter);
    }

    /** uv__handle_start: a handle that becomes active is counted if it is referenced. */
    method HandleStart(handle: Timer)
      requires handle in handles && activeHandles == |Counted()|
      modifies this`activeHandles, handle`active
      ensures handle.active && activeHandles == |Counted()|
      ensures old(handle.active) ==> unchanged(this)
    {
      if handle.active {
        return;
      }
      ghost var counted := Counted();
      handle.active := true;
      if handle.referenced {
        activeHandles := activeHandles + 1;
      }
      assert Counted() == if handle.referenced then counted + {handle} else counted;
    }

    /** uv__handle_ref: an active handle starts to count. */
    method HandleRef(handle: Timer)
      requires Valid() && handle in handles
      modifies this`activeHandles, handle`referenced
      ensures Valid() && handle.referenced
    {
      assert HandleOk(handle);
      SetReferenced(handle);
      assert heap.Valid();
      forall t | t in handles ensures HandleOk(t) {
        assert old(HandleOk(t));
      }
    }

    method SetReferenced(handle: Timer)
      requires handle in handles && activeHandles == |Counted()| && (handle.active ==> !handle.closing)
      modifies this`activeHandles, handle`referenced
      ensures handle.referenced && activeHandles == |Counted()|
    {
      if handle.referenced {
        return;
      }
      ghost var counted := Counted();
      handle.referenced := true;
      if !handle.closing && handle.active {
        activeHandles := activeHandles + 1;
      }
      assert Counted() == if handle.active then counted + {handle} else counted;
    }

    /** uv__handle_unref: an active handle no longer counts. */
    method HandleUnref(handle: Timer)
      requires Valid() && handle in handles
      modifies this`activeHandles, handle`referenced
      ensures Valid() && !handle.referenced
    {
      assert HandleOk(handle);
      ClearReferenced(handle);
      assert heap.Valid();
      forall t | t in handles ensures HandleOk(t) {
        assert old(HandleOk(t));
      }
    }

    method ClearReferenced(handle: Timer)
      requires handle in handles && activeHandles == |Counted()| && (handle.active ==> !handle.closing)
      modifies this`activeHandles, handle`referenced
      ensures !handle.referenced && activeHandles == |Counted()|
    {
      if !handle.referenced {
        return;
      }
      ghost var counted := Counted();
      handle.referenced := false;
      if !handle.closing && handle.active {
        activeHandles := activeHandles - 1;
      }
      assert Counted() == counted - {handle};
    }

    /** The part of uv_timer_start behind its checks, for a handle that is not running. */
    method Schedule(handle: Timer, timeout: nat, repeat: nat)
      requires Valid() && handle in handles && !handle.active && !handle.closing
      requires timeout <= MAX64 && repeat <= MAX64
      modifies this`activeHandles, this`timerCounter, heap
      modifies heap.Nodes()`left, heap.Nodes()`right, heap.Nodes()`parent, handle
      ensures Valid() && heap.Nodes() == old(heap.Nodes()) + {handle}
      ensures handle.active && handle.timeout == Deadline(time, timeout) && handle.repeat == repeat
      ensures handle.startId == old(timerCounter) && timerCounter == Increment(old(timerCounter))
      ensures handle.hasCallback && handle.referenced == old(handle.referenced) && !handle.closing
    {
      ghost var counted := Counted();
      var deadline := Deadline(time, timeout);
      Arm(handle, deadline, repeat);
      assert Counted() == counted;
      HandleStart(handle);
      assert heap.Valid();
      forall t | t in handles ensures HandleOk(t) {
        assert old(HandleOk(t));
      }
    }

    /** uv_timer_start. */
    method Start(handle: Timer, callback: bool, timeout: nat, repeat: nat) returns (r: Status)
      requires Valid() && handle in handles && timeout <= MAX64 && repeat <= MAX64
      modifies this`activeHandles, this`timerCounter, heap
      modifies heap.Nodes()`left, heap.Nodes()`right, heap.Nodes()`parent, handle
      ensures Valid()
      ensures r == EINVAL <==> old(handle.closing) || !callback
      ensures r == EINVAL ==> heap.Nodes() == old(heap.Nodes()) && unchanged(this) && unchanged(handle)
      ensures r == Ok ==>
        && heap.Nodes() == old(heap.Nodes()) + {handle}
        && handle.active && handle.timeout == Deadline(time, timeout) && handle.repeat == repeat
        && handle.startId == old(timerCounter) && timerCounter == Increment(old(timerCounter))
        && handle.hasCallback && handle.referenced == old(handle.referenced) && !handle.closing
    {
      if handle.closing || !callback {
        return EINVAL;
      }
      if handle.active {
        Stop(handle);
      }
      Schedule(handle, timeout, repeat);
      return Ok;
    }

    /** uv_timer_again. */
    method Again(handle: Timer) returns (r: Status)
      requires Valid() && handle in handles
      modifies this`activeHandles, this`timerCounter, heap
      modifies heap.Nodes()`left, heap.Nodes()`right, heap.Nodes()`parent, handle
      ensures Valid()
      ensures r == EINVAL <==> !old(handle.hasCallback)
      ensures r == EINVAL || old(handle.repeat) == 0 ==>
        heap.Nodes() == old(heap.Nodes()) && unchanged(this) && unchanged(handle)
      ensures r == Ok && old(handle.repeat) != 0 && !old(handle.closing) ==>
        && heap.Nodes() == old(heap.Nodes()) + {handle}
        && handle.active && handle.timeout == Deadline(time, old(handle.repeat)) && handle.repeat == old(handle.repeat)
        && handle.hasCallback && handle.referenced == old(handle.referenced) && !handle.closing
      ensures old(handle.closing) ==> heap.Nodes() == old(heap.Nodes())
    {
      if !handle.hasCallback {
        return EINVAL;
      }
      if handle.repeat != 0 {
        Stop(handle);
        var _ := Start(handle, handle.hasCallback, handle.repeat, handle.repeat);
      }
      return Ok;
    }

    /** uv__next_timeout: how long the loop may block, -1 without limit. */
    method NextTimeout() returns (r: int)
      requires Valid()
      ensures r == -1 <==> forall t :: t in handles ==> !t.active
      ensures r != -1 ==> exists t :: t in handles && t.active && r == Wait(t)
      ensures r != -1 ==> forall t :: t in handles && t.active ==> r <= Wait(t)
    {
      var first := heap.Min();
      if first == null {
        return -1;
      }
      assert first in handles && first.active;
      forall t | t in handles && t.active ensures Wait(first) <= Wait(t) {
        assert t in heap.Nodes() && !Less(t, first);
      }
      if first.timeout <= time {
        return 0;
      }
      var diff := first.timeout - time;
      if diff > INT_MAX {
        diff := INT_MAX;
      }
      return diff;
    }

    /** The time until a timer is due, not negative and cut to INT_MAX. */
    ghost function Wait(t: Timer): (w: int)
      reads this, t
    {
      if t.timeout <= time then 0 else if t.timeout - time > INT_MAX then INT_MAX else t.timeout - time
    }

    // ----- uv__run_timers -----

    /** The fields of a timer that its user can see. */
    ghost function Look(t: Timer): (v: View)
      reads t
    {
      View(KeyOf(t), t.repeat, t.active, t.hasCallback, t.closing)
    }

    ghost function Views(): (m: map<Timer, View>)
      reads this, handles
      ensures m.Keys == handles
    {
      map t | t in handles :: Look(t)
    }

    ghost predicate FiredFrom(t: Timer, was: View)
      reads this`time, t
    {
      Fired(Look(t), was, time)
    }

    /** One round of the loop: stop the timer and, if it repeats, start it again. */
    method Fire(handle: Timer)
      requires Valid() && handle in handles && handle.active
      modifies this`activeHandles, this`timerCounter, heap
      modifies heap.Nodes()`left, heap.Nodes()`right, heap.Nodes()`parent, handle
      ensures Valid() && FiredFrom(handle, old(Look(handle))) && !handle.closing
    {
      assert HandleOk(handle);
      Stop(handle);
      var _ := Again(handle);
    }

    /** Half way through a run: `fired` have fired in order, `left` are due and still to come. */
    ghost predicate Running(before: map<Timer, View>, left: set<Timer>, fired: seq<Timer>)
      requires before.Keys == handles
      reads this, handles
    {
      && (forall t :: t in handles ==> (Due(before[t], time) <==> t in left || t in fired))
      && (forall t :: t in left ==> t in handles && t !in fired)
      && (forall t :: t in fired ==> t in handles && FiredFrom(t, before[t]))
      && (forall t :: t in handles && t !in fired ==> Look(t) == before[t])
      && InOrder(before, fired)
      && (forall t, u :: t in left && u in fired ==>
           t in before && u in before && !KeyLess(before[t].key, before[u].key))
    }

    /** The run comes to an end: time is left to arm repeating timers, or none of the active ones repeats. */
    ghost predicate Ends(before: map<Timer, View>)
      reads this
      requires before.Keys == handles
    {
      time < MAX64 || forall t :: t in handles && before[t].active ==> before[t].repeat == 0
    }

    /** At the last moment that the clock can show, some active timer repeats. */
    ghost predicate Endless()
      reads this, handles
    {
      time == MAX64 && exists t :: t in handles && t.active && t.repeat > 0
    }

    /** Then every round finds a timer to fire and the same holds behind it: the saturated deadline is due at once,
        and the loop never ends. */
    method EndlessRound() returns (handle: Timer?)
      requires Valid() && Endless()
      modifies this`activeHandles, this`timerCounter, heap, handles
      ensures Valid() && handle != null && Endless()
    {
      ghost var t :| t in handles && t.active && t.repeat > 0;
      assert HandleOk(t);
      assert t in heap.slots;
      handle := heap.Min();
      assert handle in heap.Nodes() && HandleOk(handle);
      if handle == null || handle.timeout > time {
        assert false;
      } else {
        Fire(handle);
        assert t.active && t.repeat > 0;
      }
    }

    method FireNext(ghost before: map<Timer, View>, ghost left: set<Timer>, ghost fired: seq<Timer>, handle: Timer)
      requires Valid() && before.Keys == handles && Ends(before) && Running(before, left, fired)
      requires handle in left && handle.active
      requires forall t :: t in left ==> !KeyLess(before[t].key, before[handle].key)
      modifies this`activeHandles, this`timerCounter, heap, handles
      ensures Valid() && Running(before, left - {handle}, fired + [handle])
    {
      assert Look(handle) == before[handle];
      InOrderThen(before, fired, handle);
      Fire(handle);
      assert forall t :: t in handles && t != handle ==>
        Look(t) == old(Look(t)) && FiredFrom(t, before[t]) == old(FiredFrom(t, before[t]));
    }

    /** One round: the first timer of the heap is next, unless it is not due. */
    method Round(ghost before: map<Timer, View>, ghost left: set<Timer>, ghost fired: seq<Timer>)
      returns (handle: Timer?)
      requires Valid() && before.Keys == handles && Ends(before) && Running(before, left, fired)
      modifies this`activeHandles, this`timerCounter, heap, handles
      ensures Valid()
      ensures handle == null ==> left == {} && Running(before, left, fired)
      ensures handle == null ==> forall t :: t in handles ==> !Due(Look(t), time)
      ensures handle != null ==> handle in left && Running(before, left - {handle}, fired + [handle])
    {
      handle := heap.Min();
      if handle == null || handle.timeout > time {
        NothingDue(handle);
        handle := null;
      } else {
        NextInLine(before, left, fired, handle);
        FireNext(before, left, fired, handle);
      }
    }

    lemma {:induction false} NothingDue(first: Timer?)
      requires Valid() && (first == null ==> heap.slots == [])
      requires first != null ==> first.timeout > time && forall u :: u in heap.slots ==> !Less(u, first)
      ensures forall t :: t in handles ==> !Due(Look(t), time)
    {
      forall t | t in handles ensures !Due(Look(t), time) {
        assert HandleOk(t);
        assert t in heap.Nodes() <==> t in heap.slots;
      }
    }

    lemma {:induction false} NextInLine(before: map<Timer, View>, left: set<Timer>, fired: seq<Timer>, first: Timer)
      requires Valid() && before.Keys == handles && Ends(before) && Running(before, left, fired)
      requires first in heap.slots && first.timeout <= time && forall u :: u in heap.slots ==> !Less(u, first)
      ensures first in left && first in handles && first.active
      ensures forall t :: t in left ==> !KeyLess(before[t].key, before[first].key)
    {
      assert first in heap.Nodes() && first in handles && HandleOk(first);
      forall t | t in left ensures !KeyLess(before[t].key, before[first].key) {
        assert HandleOk(t) && Look(t) == before[t];
        assert t in heap.slots;
      }
    }

    /** uv__run_timers with callbacks that leave the timers alone: exactly the timers that are due
        fire, once each, in order of deadline and start; the others keep their state. It ends unless the clock
        stands at its last moment and an active timer repeats. */
    method RunTimers(ghost before: map<Timer, View>) returns (fired: seq<Timer>)
      requires Valid() && before == Views() && Ends(before)
      modifies this`activeHandles, this`timerCounter, heap, handles
      ensures Valid() && InOrder(before, fired)
      ensures forall i, j :: 0 <= i < j < |fired| ==>
        && fired[i] in old(handles) && fired[j] in old(handles)
        && old(fired[i].timeout < fired[j].timeout
               || (fired[i].timeout == fired[j].timeout && fired[i].startId <= fired[j].startId))
      ensures forall t :: t in handles ==> (t in fired <==> Due(before[t], time))
      ensures forall t :: t in fired ==> FiredFrom(t, before[t])
      ensures forall t :: t in handles && t !in fired ==> Look(t) == before[t]
      ensures forall t :: t in handles ==> !Due(Look(t), time)
    {
      fired := [];
      ghost var left: set<Timer> := set t | t in handles && Due(Look(t), time);
      while true
        invariant Valid() && before.Keys == handles && Running(before, left, fired)
        decreases |left|
      {
        var handle := Round(before, left, fired);
        if handle == null {
          break;
        }
        fired := fired + [handle];
        left := left - {handle};
      }
      forall i, j | 0 <= i < j < |fired|
        ensures fired[i] in old(handles) && fired[j] in old(handles)
        ensures old(fired[i].timeout < fired[j].timeout
                    || (fired[i].timeout == fired[j].timeout && fired[i].startId <= fired[j].startId))
      {
        InOrderMeans(before, fired, i, j);
        assert fired[i] in before && fired[j] in before;
        assert before[fired[i]] == old(Look(fired[i])) && before[fired[j]] == old(Look(fired[j]));
      }
    }

    /** Of two timers that are started one after the other with the same deadline the first one comes first, unless the
        counter of starts wraps around between them. */
    method StartTwo(a: Timer, b: Timer, first: nat, second: nat)
      requires Valid() && a in handles && b in handles && a != b && !a.closing && !b.closing
      requires first <= MAX64 && second <= MAX64 && Deadline(time, first) == Deadline(time, second)
      requires timerCounter < MAX64
      modifies this`activeHandles, this`timerCounter, heap, handles
      ensures Valid() && a.active && b.active && a.timeout == b.timeout && a.startId < b.startId
    {
      var _ := Start(a, true, first, 0);
      var _ := Start(b, true, second, 0);
    }

    /** A timer that is due is one for which the loop does not wait. */
    lemma {:induction false} DueMeansNoWait(t: Timer)
      requires t.active
      ensures Due(Look(t), time) <==> Wait(t) == 0
    {
    }

    // ----- callbacks that work on the timers -----

    /** A timer that is due now has been left alone. */
    ghost predicate Kept(t: Timer, was: View)
      reads this`time, t
    {
      Due(Look(t), time) ==> Look(t) == was
    }

    method Perform(c: Call)
      requires Valid() && time < MAX64 && Gentle([c], handles)
      modifies this`activeHandles, this`timerCounter, heap, handles
      ensures Valid() && Kept(c.timer, old(Look(c.timer)))
      ensures forall t :: t in handles && t != c.timer ==> Look(t) == old(Look(t))
    {
      assert [c][0] == c;
      assert HandleOk(c.timer);
      match c
      case StartCall(t, callback, timeout, repeat) => var _ := Start(t, callback, timeout, repeat);
      case StopCall(t) => Stop(t);
      case AgainCall(t) => var _ := Again(t);
      case RefCall(t) => HandleRef(t);
      case UnrefCall(t) => HandleUnref(t);
      assert HandleOk(c.timer);
    }

    method PerformAll(calls: seq<Call>)
      requires Valid() && time < MAX64 && Gentle(calls, handles)
      modifies this`activeHandles, this`timerCounter, heap, handles
      ensures Valid() && forall t :: t in handles ==> Kept(t, old(Look(t)))
      ensures forall t :: t in handles && !Mentions(calls, t) ==> Look(t) == old(Look(t))
    {
      for i := 0 to |calls|
        invariant Valid() && forall t :: t in handles ==> Kept(t, old(Look(t)))
        invariant forall t :: t in handles && !Mentions(calls, t) ==> Look(t) == old(Look(t))
      {
        assert calls[i].timer in handles && Mentions(calls, calls[i].timer);
        Perform(calls[i]);
      }
    }

    /** Half way through a run whose rounds so far had the callbacks `calls`. */
    ghost predicate Progress(before: map<Timer, View>, fired: seq<Timer>, calls: seq<Call>)
      requires before.Keys == handles
      reads this, handles
    {
      && (forall t :: t in handles ==> Kept(t, before[t]))
      && (forall t :: t in handles && t in fired ==> Due(before[t], time) && !Due(Look(t), time))
      && (forall t :: t in handles && t !in fired && !Mentions(calls, t) ==> Look(t) == before[t])
      && (forall t :: t in handles && t in fired && !Mentions(calls, t) ==> FiredFrom(t, before[t]))
      && InOrder(before, fired)
      && (forall t, u :: t in handles && Due(Look(t), time) && u in fired ==>
            u in before && !KeyLess(before[t].key, before[u].key))
    }

    /** Unfolds only where Progress is named. */
    ghost predicate Going(before: map<Timer, View>, fired: seq<Timer>, calls: seq<Call>)
      reads this, handles
    {
      before.Keys == handles && forall f :: f == fired ==> Progress(before, f, calls)
    }

    /** The timers that are due. */
    ghost function Pending(): (r: set<Timer>)
      reads this, handles
    {
      set t | t in handles && Due(Look(t), time)
    }

    method FireFirst(ghost before: map<Timer, View>, ghost fired: seq<Timer>, ghost calls: seq<Call>, handle: Timer)
      requires Valid() && time < MAX64 && before.Keys == handles && Progress(before, fired, calls)
      requires handle in handles && Due(Look(handle), time)
      requires forall t :: t in handles && t.active ==> !KeyLess(KeyOf(t), KeyOf(handle))
      modifies this`activeHandles, this`timerCounter, heap, handles
      ensures Valid() && Progress(before, fired + [handle], calls)
      ensures Pending() <= old(Pending()) && handle !in Pending()
    {
      assert Look(handle) == before[handle] && handle !in fired;
      InOrderThen(before, fired, handle);
      FireAlone(handle);
    }

    /** Firing changes no other timer, and the timer is not due again at once. */
    method FireAlone(handle: Timer)
      requires Valid() && time < MAX64 && handle in handles && handle.active
      modifies this`activeHandles, this`timerCounter, heap, handles
      ensures Valid() && FiredFrom(handle, old(Look(handle))) && !Due(Look(handle), time)
      ensures forall t :: t in handles && t != handle ==> Look(t) == old(Look(t))
    {
      Fire(handle);
    }

    method Callback(ghost before: map<Timer, View>, ghost fired: seq<Timer>, ghost calls: seq<Call>, now: seq<Call>)
      requires Valid() && time < MAX64 && before.Keys == handles && Progress(before, fired, calls)
      requires Gentle(now, handles)
      modifies this`activeHandles, this`timerCounter, heap, handles
      ensures Valid() && Progress(before, fired, calls + now) && Pending() <= old(Pending())
    {
      PerformAll(now);
      forall t ensures Mentions(calls + now, t) <==> Mentions(calls, t) || Mentions(now, t) {
        MentionsEither(calls, now, t);
      }
      assert forall t :: t in handles && Due(Look(t), time) ==> Look(t) == old(Look(t));
      assert forall t :: t in handles && !Mentions(now, t) ==> FiredFrom(t, before[t]) == old(FiredFrom(t, before[t]));
    }

    /** uv__run_timers with callbacks that start, restart, stop, reference or unreference any timers, as long as no
        delay is zero: `script` gives the calls made in each round. Every timer fires at most once, only if it was
        due at the beginning, and in order of deadline and start; a timer that no callback has touched fires if it
        was due and keeps its state if not; and at the end nothing is due. */
    method RunTimersWith(script: nat -> seq<Call>, ghost before: map<Timer, View>) returns (fired: seq<Timer>)
      requires Valid() && before == Views() && time < MAX64 && forall i: nat :: Gentle(script(i), handles)
      modifies this`activeHandles, this`timerCounter, heap, handles
      ensures Valid() && InOrder(before, fired)
      ensures forall t :: t in fired ==> t in handles && Due(before[t], time)
      ensures forall t :: t in handles && !Mentions(Said(script, |fired|), t) ==>
        if Due(before[t], time) then t in fired && FiredFrom(t, before[t]) else Look(t) == before[t]
      ensures forall t :: t in handles ==> !Due(Look(t), time)
    {
      fired := [];
      ghost var calls: seq<Call> := [];
      AtFirst(before);
      while true
        invariant Valid() && Going(before, fired, calls) && calls == Said(script, |fired|)
        decreases Pending()
      {
        var now := script(|fired|);
        var handle := RoundWith(before, fired, calls, now);
        if handle == null {
          break;
        }
        fired, calls := fired + [handle], calls + now;
      }
      AtTheEnd(before, fired, calls);
    }

    /** With a delay of zero the run need not end: a timer that its own callback starts that way is due again behind
        the round. */
    method RestartingRound() returns (handle: Timer?)
      requires Valid() && Pending() != {}
      modifies this`activeHandles, this`timerCounter, heap, handles
      ensures Valid() && handle != null && handle in Pending()
    {
      ghost var t :| t in Pending();
      assert HandleOk(t);
      assert t in heap.slots;
      handle := heap.Min();
      assert handle in heap.Nodes() && HandleOk(handle);
      if handle == null || handle.timeout > time {
        assert false;
      } else {
        Fire(handle);
        var _ := Start(handle, true, 0, handle.repeat);
      }
    }

    /** One round, with the calls that its callback makes. */
    method RoundWith(ghost before: map<Timer, View>, ghost fired: seq<Timer>, ghost calls: seq<Call>, now: seq<Call>)
      returns (handle: Timer?)
      requires Valid() && time < MAX64 && Going(before, fired, calls) && Gentle(now, handles)
      modifies this`activeHandles, this`timerCounter, heap, handles
      ensures Valid()
      ensures handle == null ==> Going(before, fired, calls) && forall t :: t in handles ==> !Due(Look(t), time)
      ensures handle != null ==> Going(before, fired + [handle], calls + now) && Pending() < old(Pending())
    {
      assert Progress(before, fired, calls);
      handle := heap.Min();
      if handle == null || handle.timeout > time {
        NothingDue(handle);
        handle := null;
      } else {
        FirstIsDue(handle);
        assert handle in Pending();
        FireFirst(before, fired, calls, handle);
        Callback(before, fired + [handle], calls, now);
      }
    }

    lemma {:induction false} AtFirst(before: map<Timer, View>)
      requires before == Views()
      ensures Going(before, [], [])
    {
      assert Progress(before, [], []);
    }

    lemma {:induction false} AtTheEnd(before: map<Timer, View>, fired: seq<Timer>, calls: seq<Call>)
      requires Going(before, fired, calls) && forall t :: t in handles ==> !Due(Look(t), time)
      ensures InOrder(before, fired)
      ensures forall t :: t in fired ==> t in handles && Due(before[t], time)
      ensures forall t :: t in handles && !Mentions(calls, t) ==>
        if Due(before[t], time) then t in fired && FiredFrom(t, before[t]) else Look(t) == before[t]
    {
      assert Progress(before, fired, calls);
      assert forall t :: t in fired ==> t in before;
    }

    lemma {:induction false} FirstIsDue(first: Timer)
      requires Valid() && first in heap.slots && first.timeout <= time
      requires forall u :: u in heap.slots ==> !Less(u, first)
      ensures first in handles && Due(Look(first), time)
      ensures forall t :: t in handles && t.active ==> !KeyLess(KeyOf(t), KeyOf(first))
    {
      assert first in heap.Nodes() && first in handles && HandleOk(first);
      forall t | t in handles && t.active ensures !KeyLess(KeyOf(t), KeyOf(first)) {
        assert HandleOk(t);
        assert t in heap.slots;
      }
    }
  }

  /** What a callback may do to a timer. */
  datatype Call =
    | StartCall(timer: Timer, callback: bool, timeout: nat, repeat: nat)
    | StopCall(timer: Timer)
    | AgainCall(timer: Timer)
    | RefCall(timer: Timer)
    | UnrefCall(timer: Timer)

  /** Calls on these timers, none of them starting one with a delay of zero. */
  ghost predicate Gentle(calls: seq<Call>, timers: set<Timer>) {
    forall i :: 0 <= i < |calls| ==>
      && calls[i].timer in timers
      && (calls[i].StartCall? ==> 0 < calls[i].timeout <= MAX64 && calls[i].repeat <= MAX64)
  }

  ghost predicate Mentions(calls: seq<Call>, t: Timer) { exists i :: 0 <= i < |calls| && calls[i].timer == t }

  lemma {:induction false} MentionsEither(a: seq<Call>, b: seq<Call>, t: Timer)
    ensures Mentions(a + b, t) <==> Mentions(a, t) || Mentions(b, t)
  {
    var s := a + b;
    assert forall i :: 0 <= i < |a| ==> s[i] == a[i];
    assert forall i :: 0 <= i < |b| ==> s[|a| + i] == b[i];
  }

  /** The calls made in the first n rounds. */
  ghost function Said(script: nat -> seq<Call>, n: nat): (calls: seq<Call>) {
    if n == 0 then [] else Said(script, n - 1) + script(n - 1)
  }

  datatype View = View(key: Key, repeat: nat, active: bool, hasCallback: bool, closing: bool)

  /** What firing makes of a timer: stopped, or due again one repeat interval from now. */
  predicate Fired(v: View, was: View, now: nat) {
    && v.repeat == was.repeat <= MAX64 && now <= MAX64
    && (if was.repeat == 0 then !v.active else v.active && v.key.timeout == Deadline(now, was.repeat))
  }

  predicate Due(v: View, now: nat) { v.active && v.key.timeout <= now }

  /** The order in which timers fire: by deadline, and by the number of their start where deadlines are equal. */
  lemma {:induction false} InOrderMeans(before: map<Timer, View>, fired: seq<Timer>, i: nat, j: nat)
    requires InOrder(before, fired) && i < j < |fired|
    ensures var a, b := before[fired[i]].key, before[fired[j]].key;
      a.timeout < b.timeout || (a.timeout == b.timeout && a.id <= b.id)
  {
    assert fired[i] in before && fired[j] in before;
  }

  lemma {:induction false} InOrderThen(before: map<Timer, View>, fired: seq<Timer>, t: Timer)
    requires InOrder(before, fired) && t in before && t !in fired
    requires forall u :: u in fired ==> u in before && !KeyLess(before[t].key, before[u].key)
    ensures InOrder(before, fired + [t])
    ensures forall u :: u in fired + [t] <==> u in fired || u == t
  {
  }

  /** Different timers, none of them before an earlier one. */
  ghost predicate InOrder(before: map<Timer, View>, fired: seq<Timer>) {
    && (forall i :: 0 <= i < |fired| ==> fired[i] in before)
    && (forall i, j :: 0 <= i < j < |fired| ==> fired[i] != fired[j])
    && (forall i, j :: 0 <= i < j < |fired| ==> !KeyLess(before[fired[j]].key, before[fired[i]].key))
  }
}
