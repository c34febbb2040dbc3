/** The libuv thread pool as a state machine. One step is what a thread does between taking a
    mutex and releasing it; a run is any interleaving of such steps by the workers, the loop
    threads and the shutdown code, with spurious wake-ups and an arbitrary choice of the thread
    that a signal wakes. */
module ThreadPool {
  import opened Common

  type Item = nat

  /** Entries of the global queue. */
  datatype Entry = Work(id: Item) | RunSlow | Exit

  /** Where a worker stands: about to lock the mutex (having just finished slow work or not),
      asleep on the condition variable, signalled, holding an item whose function it has still to
      call or has called, or gone. */
  datatype Worker =
    | Contending(slow: bool)
    | Sleeping
    | Woken
    | Holding(id: Item, slow: bool)
    | Finished(id: Item, slow: bool)
    | Exited

  /** The work field of a request, and what happened to it: how often its function was called and
      the codes its done callback was given. */
  datatype WorkField = Function | Null | Cancelled
  datatype Code = Success | ECanceled
  datatype Request = Request(loop: nat, work: WorkField, ran: nat, done: seq<Code>)

  /** A loop: its finished queue, the queue uv__work_done is draining, and a cancel between its
      two critical sections. */
  datatype Loop = Loop(queue: seq<Item>, drained: seq<Item>, cancelling: Option<Item>)

  /** What the global mutex protects. */
  datatype Core = Core(nthreads: nat, idle: int, slowRunning: int, wq: seq<Entry>, slowq: seq<Item>)

  datatype Pool = Pool(core: Core, workers: seq<Worker>, requests: map<Item, Request>, loops: seq<Loop>)

  // ----- the worker's critical section -----

  function Threshold(c: Core): (t: nat) { (c.nthreads + 1) / 2 }

  predicate MustWait(c: Core) {
    c.wq == [] || (c.wq == [RunSlow] && c.slowRunning >= Threshold(c))
  }

  predicate SlowOnce(c: Core) { multiset(c.wq)[RunSlow] <= 1 }

  datatype Outcome = Wait | Leave | Take(id: Item, slow: bool, signal: bool)

  /** From the test of the wait condition to the next release of the mutex. */
  function Section(c: Core): (r: (Core, Outcome))
    requires SlowOnce(c)
    decreases |c.wq|, if c.wq != [] && c.wq[0].RunSlow? then 1 else 0
  {
    if MustWait(c) then (c.(idle := c.idle + 1), Wait)
    else
      var rest := c.wq[1..];
      assert c.wq == [c.wq[0]] + rest;
      match c.wq[0]
      case Exit => (c, Leave)
      case Work(id) => (c.(wq := rest), Take(id, false, false))
      case RunSlow =>
        if c.slowRunning >= Threshold(c) then Section(c.(wq := rest + [RunSlow]))
        else if c.slowq == [] then Section(c.(wq := rest))
        else
          var more := |c.slowq| > 1;
          (c.(slowRunning := c.slowRunning + 1, slowq := c.slowq[1..], wq := if more then rest + [RunSlow] else rest),
           Take(c.slowq[0], true, more && c.idle > 0))
  }

  /** post: append, and whether to signal. */
  function Post(c: Core, id: Item, slow: bool): (r: (Core, bool)) {
    if !slow then Append(c, Work(id))
    else
      var c' := c.(slowq := c.slowq + [id]);
      if RunSlow in c.wq then (c', false) else Append(c', RunSlow)
  }

  function Append(c: Core, e: Entry): (r: (Core, bool)) {
    (c.(wq := c.wq + [e]), c.idle > 0)
  }

  function Without<T(==)>(q: seq<T>, x: T): (r: seq<T>)
    ensures multiset(r) == multiset(q) - multiset{x}
  {
    if q == [] then []
    else
      assert q == [q[0]] + q[1..];
      if q[0] == x then q[1..] else [q[0]] + Without(q[1..], x)
  }

  lemma {:induction false} WithoutNone<T>(q: seq<T>, x: T)
    requires x !in q
    ensures Without(q, x) == q
  {
    if q != [] { WithoutNone(q[1..], x); }
  }

  // ----- steps -----

  datatype Step =
    | Enter(w: nat, wake: nat)
    | CallWork(w: nat)
    | Publish(w: nat)
    | Submit(id: Item, loop: nat, slow: bool, wake: nat)
    | CancelBegin(id: Item)
    | CancelEnd(loop: nat)
    | Drain(loop: nat)
    | Deliver(loop: nat)
    | Shutdown(wake: nat)
    | Spurious(w: nat)

  /** The queue node of an outstanding request is linked: in a worker's hands it is reinitialised. */
  predicate Linked(s: Pool, id: Item) {
    && id in s.requests && s.requests[id].loop < |s.loops|
    && (Work(id) in s.core.wq || id in s.core.slowq || InLoop(s.loops[s.requests[id].loop], id))
  }

  predicate InLoop(l: Loop, id: Item) { id in l.queue || id in l.drained }

  /** If some worker sleeps, a signal must wake one. */
  predicate Wakes(workers: seq<Worker>, wake: nat) {
    Sleeping in workers ==> wake < |workers| && workers[wake] == Sleeping
  }

  function Signal(workers: seq<Worker>, wake: nat): (r: seq<Worker>)
    ensures |r| == |workers|
  {
    if wake < |workers| && workers[wake] == Sleeping then workers[wake := Woken] else workers
  }

  /** The core as worker w finds it once it has the mutex and has left its wait or its slow work. */
  function Entered(s: Pool, w: nat): (c: Core)
    requires w < |s.workers|
  {
    match s.workers[w]
    case Contending(true) => s.core.(slowRunning := s.core.slowRunning - 1)
    case Woken => s.core.(idle := s.core.idle - 1)
    case _ => s.core
  }

  predicate Enabled(s: Pool, step: Step) {
    match step
    case Enter(w, wake) =>
      && w < |s.workers| && (s.workers[w].Contending? || s.workers[w].Woken?)
      && SlowOnce(s.core) && Wakes(s.workers, wake)
    case CallWork(w) => w < |s.workers| && s.workers[w].Holding? && s.workers[w].id in s.requests
    case Publish(w) =>
      && w < |s.workers| && s.workers[w].Finished? && s.workers[w].id in s.requests
      && s.requests[s.workers[w].id].loop < |s.loops|
    case Submit(id, loop, _, wake) =>
      && id !in s.requests && loop < |s.loops| && s.loops[loop].cancelling.None? && Wakes(s.workers, wake)
    case CancelBegin(id) =>
      && Linked(s, id) && s.requests[id].work != Null && s.loops[s.requests[id].loop].cancelling.None?
    case CancelEnd(loop) =>
      && loop < |s.loops| && s.loops[loop].cancelling.Some? && s.loops[loop].cancelling.value in s.requests
    case Drain(loop) => loop < |s.loops| && s.loops[loop].cancelling.None? && s.loops[loop].drained == []
    case Deliver(loop) =>
      && loop < |s.loops| && s.loops[loop].cancelling.None? && s.loops[loop].drained != []
      && s.loops[loop].drained[0] in s.requests
    case Shutdown(wake) => Exit !in s.core.wq && Wakes(s.workers, wake)
    case Spurious(w) => w < |s.workers| && s.workers[w].Sleeping?
  }

  function Apply(s: Pool, step: Step): (s': Pool)
    requires Enabled(s, step)
  {
    match step
    case Enter(w, wake) =>
      var (c, out) := Section(Entered(s, w));
      (match out
       case Wait => s.(core := c, workers := s.workers[w := Sleeping])
       case Leave => s.(core := c, workers := Signal(s.workers[w := Exited], wake))
       case Take(id, slow, signal) =>
         var workers := s.workers[w := Holding(id, slow)];
         s.(core := c, workers := if signal then Signal(workers, wake) else workers))
    case CallWork(w) =>
      var h := s.workers[w];
      var r := s.requests[h.id];
      s.(workers := s.workers[w := Finished(h.id, h.slow)], requests := s.requests[h.id := r.(ran := r.ran + 1)])
    case Publish(w) =>
      var h := s.workers[w];
      var r := s.requests[h.id];
      var l := s.loops[r.loop];
      s.(workers := s.workers[w := Contending(h.slow)], requests := s.requests[h.id := r.(work := Null)],
         loops := s.loops[r.loop := l.(queue := l.queue + [h.id])])
    case Submit(id, loop, slow, wake) =>
      var (c, signal) := Post(s.core, id, slow);
      s.(core := c, workers := if signal then Signal(s.workers, wake) else s.workers,
         requests := s.requests[id := Request(loop, Function, 0, [])])
    case CancelBegin(id) =>
      var loop := s.requests[id].loop;
      var l := s.loops[loop];
      s.(core := s.core.(wq := Without(s.core.wq, Work(id)), slowq := Without(s.core.slowq, id)),
         loops := s.loops[loop := Loop(Without(l.queue, id), Without(l.drained, id), Some(id))])
    case CancelEnd(loop) =>
      var l := s.loops[loop];
      var id := l.cancelling.value;
      s.(requests := s.requests[id := s.requests[id].(work := Cancelled)],
         loops := s.loops[loop := Loop(l.queue + [id], l.drained, None)])
    case Drain(loop) =>
      s.(loops := s.loops[loop := Loop([], s.loops[loop].queue, None)])
    case Deliver(loop) =>
      var l := s.loops[loop];
      var id := l.drained[0];
      var r := s.requests[id];
      var code := if r.work == Cancelled then ECanceled else Success;
      s.(requests := s.requests[id := r.(done := r.done + [code])],
         loops := s.loops[loop := l.(drained := l.drained[1..])])
    case Shutdown(wake) =>
      var (c, signal) := Append(s.core, Exit);
      s.(core := c, workers := if signal then Signal(s.workers, wake) else s.workers)
    case Spurious(w) => s.(workers := s.workers[w := Woken])
  }

  ghost predicate Init(s: Pool) {
    && s.core.nthreads == |s.workers| >= 1
    && s.core == Core(s.core.nthreads, 0, 0, [], [])
    && (forall w :: 0 <= w < |s.workers| ==> s.workers[w] == Contending(false))
    && s.requests == map[]
    && (forall l :: 0 <= l < |s.loops| ==> s.loops[l] == Loop([], [], None))
  }

  /** Every interleaving: a start state and a sequence of enabled steps. */
  ghost predicate IsRun(run: seq<Pool>, steps: seq<Step>) {
    && |run| == |steps| + 1 && Init(run[0])
    && forall i {:trigger steps[i]} :: 0 <= i < |steps| ==> IsStep(run[i], steps[i], run[i + 1])
  }

  ghost predicate IsStep(s: Pool, step: Step, s': Pool) {
    Enabled(s, step) && s' == Apply(s, step)
  }
}
