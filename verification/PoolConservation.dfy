/** No request is lost or duplicated by the pool, in any interleaving. */
module PoolConservation {
  import opened Common
  import opened ThreadPool
  import opened PoolScheduling

  // ----- where a request is -----

  /** Occurrences of a request: in the global queues, held by workers before and after its
      function was called, in a cancel under way, in its loop's queues, and delivered. */
  datatype Census = Census(queued: nat, holding: nat, finished: nat, cancelling: nat, looped: nat, done: nat)
  {
    function Sum(): (n: nat) { queued + holding + finished + cancelling + looped + done }
  }

  function Queued(c: Core, id: Item): (n: nat) {
    multiset(c.wq)[Work(id)] + multiset(c.slowq)[id]
  }

  /** Workers that hold the request, before (false) or after (true) calling its function. */
  function Held(workers: seq<Worker>, id: Item, called: bool): (n: nat) {
    HeldUpto(workers, |workers|, id, called)
  }

  /** The same among the first n workers. */
  function HeldUpto(workers: seq<Worker>, n: nat, id: Item, called: bool): (k: nat)
    requires n <= |workers|
  {
    if n == 0 then 0 else HeldUpto(workers, n - 1, id, called) + One(IsHeld(workers[n - 1], id, called))
  }

  predicate IsHeld(w: Worker, id: Item, called: bool) {
    if called then w.Finished? && w.id == id else w.Holding? && w.id == id
  }

  function Looped(l: Loop, id: Item): (n: nat) {
    multiset(l.queue)[id] + multiset(l.drained)[id]
  }

  function CensusOf(s: Pool, id: Item): (r: Census)
    requires id in s.requests && s.requests[id].loop < |s.loops|
  {
    var l := s.loops[s.requests[id].loop];
    Census(Queued(s.core, id), Held(s.workers, id, false), Held(s.workers, id, true),
           One(l.cancelling == Some(id)), Looped(l, id), |s.requests[id].done|)
  }

  // ----- the invariant -----

  /** A request is in exactly one place, and its fields say what that place implies. */
  predicate Accounted(r: Request, n: Census) {
    && n.Sum() == 1
    && (n.queued + n.holding > 0 ==> r.work == Function && r.ran == 0)
    && (n.finished > 0 ==> r.work == Function && r.ran == 1)
    && (n.cancelling > 0 ==> r.work != Null && r.ran == 0)
    && (n.looped > 0 ==> (r.work == Null && r.ran == 1) || (r.work == Cancelled && r.ran == 0))
    && (n.done > 0 ==> r.ran <= 1 && r.done == [if r.ran == 0 then ECanceled else Success])
  }

  predicate Foreign(s: Pool, id: Item, own: int) {
    forall l :: 0 <= l < |s.loops| && l != own ==> Looped(s.loops[l], id) == 0 && s.loops[l].cancelling != Some(id)
  }

  predicate ItemOk(s: Pool, id: Item) {
    if id in s.requests then
      && s.requests[id].loop < |s.loops| && Foreign(s, id, s.requests[id].loop)
      && Accounted(s.requests[id], CensusOf(s, id))
    else
      && Queued(s.core, id) == 0 && Held(s.workers, id, false) == 0 && Held(s.workers, id, true) == 0
      && Foreign(s, id, -1)
  }

  ghost predicate Conserved(s: Pool) {
    forall id: Item :: ItemOk(s, id)
  }

  // ----- counting -----

  lemma {:induction false} HeldUptoUpdate(workers: seq<Worker>, n: nat, w: nat, x: Worker, id: Item, called: bool)
    requires w < |workers| && n <= |workers|
    ensures n <= w ==> HeldUpto(workers[w := x], n, id, called) == HeldUpto(workers, n, id, called)
    ensures w < n ==>
      && HeldUpto(workers[w := x], n, id, called) ==
           HeldUpto(workers, n, id, called) - One(IsHeld(workers[w], id, called)) + One(IsHeld(x, id, called))
      && HeldUpto(workers, n, id, called) >= One(IsHeld(workers[w], id, called))
    decreases n
  {
    if n > 0 { HeldUptoUpdate(workers, n - 1, w, x, id, called); }
  }

  lemma {:induction false} HeldUpdate(workers: seq<Worker>, w: nat, x: Worker, id: Item, called: bool)
    requires w < |workers|
    ensures Held(workers[w := x], id, called) ==
      Held(workers, id, called) - One(IsHeld(workers[w], id, called)) + One(IsHeld(x, id, called))
    ensures Held(workers, id, called) >= One(IsHeld(workers[w], id, called))
  {
    HeldUptoUpdate(workers, |workers|, w, x, id, called);
  }

  lemma {:induction false} SignalHeld(workers: seq<Worker>, wake: nat, id: Item, called: bool)
    ensures Held(Signal(workers, wake), id, called) == Held(workers, id, called)
  {
    if wake < |workers| && workers[wake] == Sleeping {
      HeldUpdate(workers, wake, Woken, id, called);
    }
  }

  /** The section moves at most one request out of the queues, the one it takes. */
  lemma {:induction false} SectionConserves(c: Core, id: Item)
    requires QueuesOk(c)
    ensures var (c', out) := Section(c); Queued(c', id) == Queued(c, id) - One(out.Take? && out.id == id)
    decreases |c.wq|, if c.wq != [] && c.wq[0].RunSlow? then 1 else 0
  {
    if Loops(c) {
      NextOk(c, c.slowRunning);
      SectionNext(c);
      NextConserves(c, id);
      SectionConserves(Next(c), id);
    } else if !MustWait(c) {
      SplitHead(c);
      if c.wq[0].RunSlow? {
        assert c.slowq == [c.slowq[0]] + c.slowq[1..];
      }
    }
  }

  lemma {:induction false} NextConserves(c: Core, id: Item)
    requires Loops(c)
    ensures Queued(Next(c), id) == Queued(c, id)
  {
    SplitHead(c);
    assert c.wq[1..] + [] == c.wq[1..];
  }

  // ----- every step keeps the invariant -----

  /** Steps that touch only the core and the workers. */
  lemma {:induction false} SameLoops(s: Pool, s': Pool, id: Item)
    requires ItemOk(s, id) && s'.loops == s.loops
    requires s'.requests == s.requests
    requires Queued(s'.core, id) + Held(s'.workers, id, false) == Queued(s.core, id) + Held(s.workers, id, false)
    requires Held(s'.workers, id, true) == Held(s.workers, id, true)
    ensures ItemOk(s', id)
  {
  }

  lemma {:induction false} EnterConserves(s: Pool, w: nat, wake: nat, id: Item)
    requires Scheduling(s) && Enabled(s, Enter(w, wake)) && ItemOk(s, id)
    ensures ItemOk(Apply(s, Enter(w, wake)), id)
  {
    var c := Entered(s, w);
    var x := match Section(c).1 case Wait => Sleeping case Leave => Exited case Take(i, slow, _) => Holding(i, slow);
    SectionConserves(c, id);
    HeldUpdate(s.workers, w, x, id, false);
    HeldUpdate(s.workers, w, x, id, true);
    SignalHeld(s.workers[w := x], wake, id, false);
    SignalHeld(s.workers[w := x], wake, id, true);
    SameLoops(s, Apply(s, Enter(w, wake)), id);
  }

  lemma {:induction false} CallWorkConserves(s: Pool, w: nat, id: Item)
    requires Enabled(s, CallWork(w)) && ItemOk(s, id)
    ensures ItemOk(Apply(s, CallWork(w)), id)
  {
    var x := Finished(s.workers[w].id, s.workers[w].slow);
    HeldUpdate(s.workers, w, x, id, false);
    HeldUpdate(s.workers, w, x, id, true);
  }

  lemma {:induction false} PublishMoves(s: Pool, w: nat)
    requires Enabled(s, Publish(w)) && ItemOk(s, s.workers[w].id)
    ensures ItemOk(Apply(s, Publish(w)), s.workers[w].id)
  {
    var h, s' := s.workers[w], Apply(s, Publish(w));
    var loop := s.requests[h.id].loop;
    HeldUpdate(s.workers, w, Contending(h.slow), h.id, false);
    HeldUpdate(s.workers, w, Contending(h.slow), h.id, true);
    AppendLooped(s.loops[loop], h.id, h.id);
    assert Foreign(s', h.id, loop);
  }

  lemma {:induction false} PublishConserves(s: Pool, w: nat, id: Item)
    requires Enabled(s, Publish(w)) && ItemOk(s, id)
    ensures ItemOk(Apply(s, Publish(w)), id)
  {
    var h := s.workers[w];
    if id == h.id {
      PublishMoves(s, w);
    } else {
      HeldUpdate(s.workers, w, Contending(h.slow), id, false);
      HeldUpdate(s.workers, w, Contending(h.slow), id, true);
      AppendLooped(s.loops[s.requests[h.id].loop], h.id, id);
      Unmoved(s, Apply(s, Publish(w)), s.requests[h.id].loop, id);
    }
  }

  lemma {:induction false} AppendLooped(l: Loop, x: Item, id: Item)
    ensures Looped(l.(queue := l.queue + [x]), id) == Looped(l, id) + One(x == id)
  {
    assert multiset(l.queue + [x]) == multiset(l.queue) + multiset{x};
  }

  lemma {:induction false} TakeLooped(l: Loop, id: Item)
    requires l.drained != []
    ensures Looped(l.(drained := l.drained[1..]), id) == Looped(l, id) - One(l.drained[0] == id)
  {
    assert l.drained == [l.drained[0]] + l.drained[1..];
    assert multiset(l.drained) == multiset{l.drained[0]} + multiset(l.drained[1..]);
  }

  lemma {:induction false} SubmitConserves(s: Pool, step: Step, id: Item)
    requires step.Submit? && Enabled(s, step) && ItemOk(s, id)
    ensures ItemOk(Apply(s, step), id)
  {
    SignalHeld(s.workers, step.wake, id, false);
    SignalHeld(s.workers, step.wake, id, true);
    PostQueued(s.core, step.id, step.slow, id);
    if id == step.id {
      assert Foreign(s, id, step.loop);
      assert Looped(s.loops[step.loop], id) == 0;
    }
  }

  lemma {:induction false} PostQueued(c: Core, x: Item, slow: bool, id: Item)
    ensures Queued(Post(c, x, slow).0, id) == Queued(c, id) + One(x == id)
  {
    assert multiset(c.wq + [Work(x)]) == multiset(c.wq) + multiset{Work(x)};
    assert multiset(c.wq + [RunSlow]) == multiset(c.wq) + multiset{RunSlow};
    assert multiset(c.slowq + [x]) == multiset(c.slowq) + multiset{x};
  }

  lemma {:induction false} WithoutCount<T>(q: seq<T>, x: T, y: T)
    ensures var m, n := multiset(q)[y], multiset(Without(q, x))[y];
      n == if x == y && m > 0 then m - 1 else m
  {
  }

  lemma {:induction false} WithoutQueued(c: Core, x: Item, id: Item)
    ensures var c' := c.(wq := Without(c.wq, Work(x)), slowq := Without(c.slowq, x));
      if id != x then Queued(c', id) == Queued(c, id) else Queued(c, x) <= 1 ==> Queued(c', x) == 0
  {
    WithoutCount(c.wq, Work(x), Work(id));
    WithoutCount(c.slowq, x, id);
  }

  lemma {:induction false} WithoutLooped(l: Loop, x: Item, id: Item)
    ensures var l' := Loop(Without(l.queue, x), Without(l.drained, x), Some(x));
      if id != x then Looped(l', id) == Looped(l, id) else Looped(l, x) <= 1 ==> Looped(l', x) == 0
  {
    WithoutCount(l.queue, x, id);
    WithoutCount(l.drained, x, id);
  }

  /** A step that moves only other requests. */
  lemma {:induction false} Unmoved(s: Pool, s': Pool, loop: nat, id: Item)
    requires ItemOk(s, id) && (id in s'.requests <==> id in s.requests)
    requires id in s.requests ==> s'.requests[id] == s.requests[id]
    requires forall called :: Held(s'.workers, id, called) == Held(s.workers, id, called)
    requires loop < |s.loops| == |s'.loops| && s'.loops == s.loops[loop := s'.loops[loop]]
    requires Queued(s'.core, id) == Queued(s.core, id)
    requires Looped(s'.loops[loop], id) == Looped(s.loops[loop], id)
    requires s'.loops[loop].cancelling == Some(id) <==> s.loops[loop].cancelling == Some(id)
    ensures ItemOk(s', id)
  {
    var own := if id in s.requests then s.requests[id].loop else -1;
    assert Foreign(s', id, own);
  }

  lemma {:induction false} Cancellable(r: Request, n: Census)
    requires Accounted(r, n) && n.queued + n.looped > 0 && r.work != Null
    ensures n.queued + n.looped == 1 && n.holding == n.finished == n.cancelling == n.done == 0 && r.ran == 0
  {
  }

  lemma {:induction false} CancelBeginMoves(s: Pool, x: Item)
    requires Enabled(s, CancelBegin(x)) && ItemOk(s, x)
    ensures ItemOk(Apply(s, CancelBegin(x)), x)
  {
    var loop, r := s.requests[x].loop, s.requests[x];
    var l := s.loops[loop];
    LinkedCensus(s, x);
    Cancellable(r, CensusOf(s, x));
    WithoutQueued(s.core, x, x);
    WithoutLooped(l, x, x);
    var core := s.core.(wq := Without(s.core.wq, Work(x)), slowq := Without(s.core.slowq, x));
    CancelPlaced(s, core, Loop(Without(l.queue, x), Without(l.drained, x), Some(x)), x);
  }

  lemma {:induction false} CancelPlaced(s: Pool, core: Core, l: Loop, x: Item)
    requires ItemOk(s, x) && x in s.requests && Held(s.workers, x, false) == Held(s.workers, x, true) == 0
    requires s.requests[x].work != Null && s.requests[x].ran == 0 && s.requests[x].done == []
    requires Queued(core, x) == 0 && Looped(l, x) == 0 && l.cancelling == Some(x)
    ensures ItemOk(s.(core := core, loops := s.loops[s.requests[x].loop := l]), x)
  {
  }

  lemma {:induction false} CancelBeginConserves(s: Pool, x: Item, id: Item)
    requires Enabled(s, CancelBegin(x)) && ItemOk(s, id) && ItemOk(s, x)
    ensures ItemOk(Apply(s, CancelBegin(x)), id)
  {
    if id == x {
      CancelBeginMoves(s, x);
    } else {
      var loop := s.requests[x].loop;
      WithoutQueued(s.core, x, id);
      WithoutLooped(s.loops[loop], x, id);
      Unmoved(s, Apply(s, CancelBegin(x)), loop, id);
    }
  }

  /** A linked request is in the global queues or in the queues of its loop. */
  lemma {:induction false} LinkedCensus(s: Pool, id: Item)
    requires Linked(s, id)
    ensures CensusOf(s, id).queued + CensusOf(s, id).looped > 0
  {
    var l := s.loops[s.requests[id].loop];
    assert Work(id) in s.core.wq <==> multiset(s.core.wq)[Work(id)] > 0;
    assert id in s.core.slowq <==> multiset(s.core.slowq)[id] > 0;
    assert id in l.queue <==> multiset(l.queue)[id] > 0;
    assert id in l.drained <==> multiset(l.drained)[id] > 0;
  }

  lemma {:induction false} CancelEndConserves(s: Pool, loop: nat, id: Item)
    requires Enabled(s, CancelEnd(loop)) && ItemOk(s, id) && ItemOk(s, s.loops[loop].cancelling.value)
    ensures ItemOk(Apply(s, CancelEnd(loop)), id)
  {
    var l := s.loops[loop];
    AppendLooped(l, l.cancelling.value, id);
    if id != l.cancelling.value {
      Unmoved(s, Apply(s, CancelEnd(loop)), loop, id);
    }
  }

  lemma {:induction false} DrainConserves(s: Pool, loop: nat, id: Item)
    requires Enabled(s, Drain(loop)) && ItemOk(s, id)
    ensures ItemOk(Apply(s, Drain(loop)), id)
  {
    var s' := Apply(s, Drain(loop));
    assert forall l :: 0 <= l < |s.loops| ==> Looped(s'.loops[l], id) == Looped(s.loops[l], id);
  }

  lemma {:induction false} DeliverConserves(s: Pool, loop: nat, id: Item)
    requires Enabled(s, Deliver(loop)) && ItemOk(s, id) && ItemOk(s, s.loops[loop].drained[0])
    ensures ItemOk(Apply(s, Deliver(loop)), id)
  {
    TakeLooped(s.loops[loop], id);
    if id != s.loops[loop].drained[0] {
      Unmoved(s, Apply(s, Deliver(loop)), loop, id);
    }
  }

  lemma {:induction false} StepConserves(s: Pool, step: Step)
    requires Scheduling(s) && Conserved(s) && Enabled(s, step)
    ensures Conserved(Apply(s, step))
  {
    forall id: Item
      ensures ItemOk(Apply(s, step), id)
    {
      assert ItemOk(s, id);
      match step
      case Enter(w, wake) => EnterConserves(s, w, wake, id);
      case CallWork(w) => CallWorkConserves(s, w, id);
      case Publish(w) => PublishConserves(s, w, id);
      case Submit(_, _, _, _) => SubmitConserves(s, step, id);
      case CancelBegin(x) => CancelBeginConserves(s, x, id);
      case CancelEnd(loop) => CancelEndConserves(s, loop, id);
      case Drain(loop) => DrainConserves(s, loop, id);
      case Deliver(loop) => DeliverConserves(s, loop, id);
      case Shutdown(wake) =>
        assert multiset(s.core.wq + [Exit]) == multiset(s.core.wq) + multiset{Exit};
        SignalHeld(s.workers, wake, id, false);
        SignalHeld(s.workers, wake, id, true);
        SameLoops(s, Apply(s, step), id);
      case Spurious(w) =>
        HeldUpdate(s.workers, w, Woken, id, false);
        HeldUpdate(s.workers, w, Woken, id, true);
        SameLoops(s, Apply(s, step), id);
    }
  }

  lemma {:induction false} NobodyHolds(workers: seq<Worker>, n: nat, id: Item, called: bool)
    requires n <= |workers| && forall w :: 0 <= w < |workers| ==> workers[w] == Contending(false)
    ensures HeldUpto(workers, n, id, called) == 0
    decreases n
  {
    if n > 0 { NobodyHolds(workers, n - 1, id, called); }
  }

  lemma {:induction false} RunConserves(run: seq<Pool>, steps: seq<Step>, i: nat)
    requires IsRun(run, steps) && i < |run|
    ensures Conserved(run[i])
  {
    if i == 0 {
      forall id: Item ensures ItemOk(run[0], id) {
        NobodyHolds(run[0].workers, |run[0].workers|, id, false);
        NobodyHolds(run[0].workers, |run[0].workers|, id, true);
      }
    } else {
      RunConserves(run, steps, i - 1);
      RunScheduling(run, steps, i - 1);
      assert IsStep(run[i - 1], steps[i - 1], run[i]);
      StepConserves(run[i - 1], steps[i - 1]);
    }
  }

  // ----- what it means -----

  /** In every reachable state each submitted request is in exactly one place. */
  lemma {:induction false} ExactlyOnePlace(run: seq<Pool>, steps: seq<Step>, i: nat, id: Item)
    requires IsRun(run, steps) && i < |run| && id in run[i].requests
    ensures run[i].requests[id].loop < |run[i].loops| && CensusOf(run[i], id).Sum() == 1
  {
    RunConserves(run, steps, i);
    assert ItemOk(run[i], id);
  }

  /** The work function runs at most once and the done callback is called at most once, with
      UV_ECANCELED exactly when the work function was never called. */
  lemma {:induction false} DoneOnce(run: seq<Pool>, steps: seq<Step>, i: nat, id: Item)
    requires IsRun(run, steps) && i < |run| && id in run[i].requests
    ensures run[i].requests[id].ran <= 1 && |run[i].requests[id].done| <= 1
    ensures run[i].requests[id].done != [] ==>
      (run[i].requests[id].done == [ECanceled] <==> run[i].requests[id].ran == 0)
    ensures run[i].requests[id].done != [] ==>
      (run[i].requests[id].done == [Success] <==> run[i].requests[id].ran == 1)
  {
    RunConserves(run, steps, i);
    assert ItemOk(run[i], id);
  }

  /** uv_cancel on a request that is still outstanding succeeds exactly when no worker holds it and
      its function has not been called; otherwise it answers UV_EBUSY. */
  lemma {:induction false} CancelExact(run: seq<Pool>, steps: seq<Step>, i: nat, id: Item)
    requires IsRun(run, steps) && i < |run| && id in run[i].requests
    requires run[i].requests[id].loop < |run[i].loops| && run[i].loops[run[i].requests[id].loop].cancelling.None?
    requires run[i].requests[id].done == []
    ensures Enabled(run[i], CancelBegin(id)) <==>
      run[i].requests[id].ran == 0 && Held(run[i].workers, id, false) == 0
  {
    var s := run[i];
    RunConserves(run, steps, i);
    assert ItemOk(s, id);
    var l := s.loops[s.requests[id].loop];
    assert Work(id) in s.core.wq <==> multiset(s.core.wq)[Work(id)] > 0;
    assert id in s.core.slowq <==> multiset(s.core.slowq)[id] > 0;
    assert id in l.queue <==> multiset(l.queue)[id] > 0;
    assert id in l.drained <==> multiset(l.drained)[id] > 0;
  }

  /** The guards of the steps never keep a thread from going on: a worker that is neither asleep
      nor gone always has a step, and so has a loop thread with a cancel or a delivery under way. */
  lemma {:induction false} NeverStuck(run: seq<Pool>, steps: seq<Step>, i: nat)
    requires IsRun(run, steps) && i < |run|
    ensures forall w :: 0 <= w < |run[i].workers| && !run[i].workers[w].Sleeping? && !run[i].workers[w].Exited? ==>
      || Enabled(run[i], CallWork(w)) || Enabled(run[i], Publish(w))
      || exists wake: nat :: Enabled(run[i], Enter(w, wake))
    ensures forall l :: 0 <= l < |run[i].loops| && run[i].loops[l].cancelling.Some? ==> Enabled(run[i], CancelEnd(l))
    ensures forall l :: 0 <= l < |run[i].loops| && run[i].loops[l].cancelling.None? && run[i].loops[l].drained != [] ==>
      Enabled(run[i], Deliver(l))
  {
    var s := run[i];
    RunConserves(run, steps, i);
    RunScheduling(run, steps, i);
    forall w | 0 <= w < |s.workers| && !s.workers[w].Sleeping? && !s.workers[w].Exited?
      ensures Enabled(s, CallWork(w)) || Enabled(s, Publish(w)) || exists wake: nat :: Enabled(s, Enter(w, wake))
    {
      WorkerCanStep(s, w);
    }
    forall l | 0 <= l < |s.loops|
      ensures s.loops[l].cancelling.Some? ==> Enabled(s, CancelEnd(l))
      ensures s.loops[l].cancelling.None? && s.loops[l].drained != [] ==> Enabled(s, Deliver(l))
    {
      if s.loops[l].cancelling.Some? {
        assert ItemOk(s, s.loops[l].cancelling.value);
      } else if s.loops[l].drained != [] {
        assert ItemOk(s, s.loops[l].drained[0]);
        assert multiset(s.loops[l].drained)[s.loops[l].drained[0]] > 0;
      }
    }
  }

  lemma {:induction false} WorkerCanStep(s: Pool, w: nat)
    requires Conserved(s) && Scheduling(s) && w < |s.workers| && !s.workers[w].Sleeping? && !s.workers[w].Exited?
    ensures Enabled(s, CallWork(w)) || Enabled(s, Publish(w)) || exists wake: nat :: Enabled(s, Enter(w, wake))
  {
    if s.workers[w].Holding? || s.workers[w].Finished? {
      var id, called := s.workers[w].id, s.workers[w].Finished?;
      assert ItemOk(s, id);
      HeldUpdate(s.workers, w, Woken, id, called);
    } else if Sleeping in s.workers {
      var wake :| 0 <= wake < |s.workers| && s.workers[wake] == Sleeping;
      assert Enabled(s, Enter(w, wake));
    } else {
      assert Enabled(s, Enter(w, 0));
    }
  }
}
