/** Wake-ups, the slow-I/O limit and shutdown, in every reachable state of the pool. */
module PoolScheduling {
  import opened ThreadPool

  // ----- counting workers -----

  /** How many workers are asleep, on the way to the mutex, inside the wait, with slow work in
      hand, back from slow work but not yet counted out, and gone. */
  datatype Tally = Tally(asleep: int, checking: int, waiting: int, held: int, back: int, gone: int)
  {
    function Plus(t: Tally): (r: Tally) {
      Tally(asleep + t.asleep, checking + t.checking, waiting + t.waiting, held + t.held, back + t.back, gone + t.gone)
    }
    function Minus(t: Tally): (r: Tally) {
      Tally(asleep - t.asleep, checking - t.checking, waiting - t.waiting, held - t.held, back - t.back, gone - t.gone)
    }
    predicate AtLeast(t: Tally) {
      && asleep >= t.asleep && checking >= t.checking && waiting >= t.waiting
      && held >= t.held && back >= t.back && gone >= t.gone
    }
  }

  function One(b: bool): (n: nat) { if b then 1 else 0 }

  function Unit(w: Worker): (t: Tally) {
    Tally(One(w.Sleeping?), One(w.Contending? || w.Woken?), One(w.Sleeping? || w.Woken?),
          One((w.Holding? || w.Finished?) && w.slow), One(w.Contending? && w.slow), One(w.Exited?))
  }

  /** The tally of the first n workers. */
  function Upto(workers: seq<Worker>, n: nat): (t: Tally)
    requires n <= |workers|
    ensures 0 <= t.asleep <= t.waiting && 0 <= t.back <= t.checking && t.held >= 0 && t.gone >= 0
  {
    if n == 0 then Tally(0, 0, 0, 0, 0, 0) else Upto(workers, n - 1).Plus(Unit(workers[n - 1]))
  }

  function Total(workers: seq<Worker>): (t: Tally)
    ensures 0 <= t.asleep <= t.waiting && 0 <= t.back <= t.checking && t.held >= 0 && t.gone >= 0
  {
    Upto(workers, |workers|)
  }

  lemma {:induction false} UptoUpdate(workers: seq<Worker>, w: nat, x: Worker, n: nat)
    requires w < |workers| && n <= |workers|
    ensures n <= w ==> Upto(workers[w := x], n) == Upto(workers, n)
    ensures w < n ==> Upto(workers[w := x], n) == Upto(workers, n).Minus(Unit(workers[w])).Plus(Unit(x))
    decreases n
  {
    if n > 0 {
      UptoUpdate(workers, w, x, n - 1);
      var others, last := Upto(workers, n - 1), Unit(workers[n - 1]);
      if w == n - 1 {
        Exchange(others, last, Unit(x));
      } else if w < n - 1 {
        ExchangeEarlier(others, Unit(workers[w]), Unit(x), last);
      }
    }
  }

  lemma {:induction false} UptoAtLeast(workers: seq<Worker>, w: nat, n: nat)
    requires w < n <= |workers|
    ensures Upto(workers, n).AtLeast(Unit(workers[w]))
    ensures var r := Upto(workers, n).Minus(Unit(workers[w]));
      0 <= r.back <= r.checking && 0 <= r.asleep <= r.waiting && r.held >= 0
    decreases n
  {
    if w < n - 1 { UptoAtLeast(workers, w, n - 1); }
  }

  lemma {:induction false} TotalUpdate(workers: seq<Worker>, w: nat, x: Worker)
    requires w < |workers|
    ensures Total(workers[w := x]) == Total(workers).Minus(Unit(workers[w])).Plus(Unit(x))
    ensures Total(workers).AtLeast(Unit(workers[w]))
  {
    UptoUpdate(workers, w, x, |workers|);
    UptoAtLeast(workers, w, |workers|);
  }

  lemma {:induction false} Exchange(t: Tally, u: Tally, x: Tally)
    ensures t.Plus(u).Minus(u).Plus(x) == t.Plus(x)
  {
  }

  lemma {:induction false} ExchangeEarlier(t: Tally, u: Tally, x: Tally, last: Tally)
    ensures t.Minus(u).Plus(x).Plus(last) == t.Plus(last).Minus(u).Plus(x)
  {
  }

  /** The tally of all workers but one. */
  lemma {:induction false} TotalOthers(workers: seq<Worker>, w: nat)
    requires w < |workers|
    ensures var r := Total(workers).Minus(Unit(workers[w]));
      0 <= r.back <= r.checking && 0 <= r.asleep <= r.waiting && r.held >= 0
  {
    UptoAtLeast(workers, w, |workers|);
  }

  /** A non-zero tally has a witness. */
  lemma {:induction false} UptoWitness(workers: seq<Worker>, n: nat)
    requires n <= |workers|
    ensures Upto(workers, n).asleep > 0 ==> Sleeping in workers
    ensures Upto(workers, n).checking > 0 ==> exists w :: 0 <= w < |workers| && Unit(workers[w]).checking > 0
    ensures Upto(workers, n).gone > 0 ==> Exited in workers
    decreases n
  {
    if n > 0 {
      UptoWitness(workers, n - 1);
      assert workers[n - 1] in workers;
    }
  }

  lemma {:induction false} TotalWitness(workers: seq<Worker>)
    ensures Total(workers).asleep > 0 ==> Sleeping in workers
    ensures Total(workers).checking > 0 ==> exists w :: 0 <= w < |workers| && Unit(workers[w]).checking > 0
    ensures Total(workers).gone > 0 ==> Exited in workers
  {
    UptoWitness(workers, |workers|);
  }

  /** A signal moves one sleeper, if there is one, back on its way to the mutex. */
  function Signalled(t: Tally): (r: Tally) {
    t.(asleep := t.asleep - One(t.asleep > 0), checking := t.checking + One(t.asleep > 0))
  }

  lemma {:induction false} SignalTotal(workers: seq<Worker>, wake: nat)
    requires Wakes(workers, wake)
    ensures Total(Signal(workers, wake)) == Signalled(Total(workers))
  {
    TotalWitness(workers);
    if wake < |workers| && workers[wake] == Sleeping {
      TotalUpdate(workers, wake, Woken);
    }
  }

  // ----- the invariant -----

  /** Queue entries that a worker arriving at the mutex could act on, when `held` workers have
      slow work in hand. */
  function Runnable(c: Core, held: int): (n: int) {
    |c.wq| - multiset(c.wq)[RunSlow] + One(RunSlow in c.wq && held < Threshold(c))
  }

  predicate QueuesOk(c: Core) {
    && SlowOnce(c) && multiset(c.wq)[Exit] <= 1
    && (c.slowq != [] ==> RunSlow in c.wq)
  }

  predicate CountersOk(c: Core, t: Tally) {
    c.idle == t.waiting && c.slowRunning == t.held + t.back && c.slowRunning <= Threshold(c)
  }

  /** While anybody sleeps there is a worker under way for every entry that can be acted on. */
  predicate AwakeOk(c: Core, t: Tally) {
    t.asleep > 0 ==> t.checking >= Runnable(c, t.held)
  }

  /** Once a worker has left, the exit message stays in front. */
  predicate ExitOk(c: Core, t: Tally) {
    t.gone > 0 ==> c.wq != [] && c.wq[0] == Exit
  }

  predicate Sound(c: Core, t: Tally) {
    QueuesOk(c) && CountersOk(c, t) && AwakeOk(c, t) && ExitOk(c, t)
  }

  predicate Scheduling(s: Pool) {
    s.core.nthreads == |s.workers| && Sound(s.core, Total(s.workers))
  }

  // ----- the critical section -----

  lemma {:induction false} SplitHead(c: Core)
    requires c.wq != []
    ensures multiset(c.wq) == multiset{c.wq[0]} + multiset(c.wq[1..])
    ensures multiset(c.wq[1..] + [RunSlow]) == multiset(c.wq[1..]) + multiset{RunSlow}
  {
    assert c.wq == [c.wq[0]] + c.wq[1..];
  }

  predicate Loops(c: Core) {
    !MustWait(c) && c.wq[0].RunSlow? && (c.slowRunning >= Threshold(c) || c.slowq == [])
  }

  /** One `continue` of the section: the slow message moves behind the rest or is dropped. */
  function Next(c: Core): (c': Core)
    requires Loops(c)
  {
    c.(wq := c.wq[1..] + if c.slowRunning >= Threshold(c) then [RunSlow] else [])
  }

  /** Moving the slow message to the back changes nothing that is counted. */
  lemma {:induction false} RotateOk(c: Core, held: int)
    requires QueuesOk(c) && Loops(c) && c.slowRunning >= Threshold(c)
    ensures QueuesOk(Next(c)) && Runnable(Next(c), held) == Runnable(c, held)
    ensures Next(c).wq != [] && !Next(c).wq[0].RunSlow? && |Next(c).wq| == |c.wq|
  {
    SplitHead(c);
    assert multiset(Next(c).wq) == multiset(c.wq);
    var second := c.wq[1];
    assert second in multiset(c.wq[1..]) by { assert c.wq[1..][0] == second; }
    assert RunSlow in c.wq && RunSlow in Next(c).wq by { assert RunSlow in multiset(c.wq); }
  }

  /** Dropping it leaves one entry less to act on. */
  lemma {:induction false} DropOk(c: Core, held: int)
    requires QueuesOk(c) && held <= c.slowRunning && Loops(c) && c.slowRunning < Threshold(c)
    ensures QueuesOk(Next(c)) && Runnable(Next(c), held) <= Runnable(c, held) && |Next(c).wq| < |c.wq|
  {
    SplitHead(c);
    assert Next(c).wq == c.wq[1..];
    assert RunSlow in c.wq;
    assert RunSlow !in multiset(c.wq[1..]);
  }

  lemma {:induction false} NextOk(c: Core, held: int)
    requires QueuesOk(c) && held <= c.slowRunning && Loops(c)
    ensures QueuesOk(Next(c)) && Runnable(Next(c), held) <= Runnable(c, held)
    ensures |Next(c).wq| < |c.wq| || (Next(c).wq != [] && !Next(c).wq[0].RunSlow? && |Next(c).wq| == |c.wq|)
  {
    if c.slowRunning >= Threshold(c) { RotateOk(c, held); } else { DropOk(c, held); }
  }

  lemma {:induction false} SectionNext(c: Core)
    requires QueuesOk(c) && Loops(c) && QueuesOk(Next(c))
    ensures Section(c) == Section(Next(c))
  {
    assert c.wq[1..] + [] == c.wq[1..];
  }

  /** The outcomes a section may have from a core that is in order. */
  predicate OutcomeOk(c: Core, held: int, c': Core, out: Outcome) {
    && QueuesOk(c') && c'.nthreads == c.nthreads
    && match out
       case Wait =>
         && MustWait(c') && c' == c.(idle := c.idle + 1, wq := c'.wq)
       case Leave =>
         && c' == c.(wq := c'.wq) && c'.wq != [] && c'.wq[0] == Exit && Runnable(c', held) <= Runnable(c, held)
       case Take(_, false, signal) =>
         && c'.idle == c.idle && c'.slowRunning == c.slowRunning && !signal
         && Runnable(c', held) <= Runnable(c, held) - 1
       case Take(_, true, signal) =>
         && c'.idle == c.idle && c'.slowRunning == c.slowRunning + 1 <= Threshold(c)
         && Runnable(c', held + 1) <= Runnable(c, held) - One(!signal && c.idle > 0)
  }

  lemma {:induction false} SectionOk(c: Core, held: int)
    requires QueuesOk(c) && held <= c.slowRunning
    ensures var r := Section(c); OutcomeOk(c, held, r.0, r.1)
    ensures c.wq != [] && c.wq[0] == Exit ==> Section(c) == (c, Leave)
    decreases |c.wq|, if c.wq != [] && c.wq[0].RunSlow? then 1 else 0
  {
    if Loops(c) {
      NextOk(c, held);
      SectionNext(c);
      SectionOk(Next(c), held);
    } else if !MustWait(c) && c.wq[0].Work? {
      WorkTaken(c, held);
    } else if !MustWait(c) && c.wq[0].RunSlow? {
      SlowTaken(c, held);
    }
  }

  lemma {:induction false} WorkTaken(c: Core, held: int)
    requires QueuesOk(c) && c.wq != [] && c.wq[0].Work?
    ensures var c' := c.(wq := c.wq[1..]);
      QueuesOk(c') && Runnable(c', held) <= Runnable(c, held) - 1
  {
    SplitHead(c);
    var rest := c.wq[1..];
    assert RunSlow in c.wq <==> RunSlow in rest by { assert RunSlow in multiset(c.wq) <==> RunSlow in multiset(rest); }
  }

  lemma {:induction false} SlowTaken(c: Core, held: int)
    requires QueuesOk(c) && held <= c.slowRunning < Threshold(c) && c.wq != [] && c.wq[0].RunSlow? && c.slowq != []
    ensures var (c', out) := Section(c);
      QueuesOk(c') && Runnable(c', held + 1) <= Runnable(c, held) - One(!out.signal && c.idle > 0)
  {
    SplitHead(c);
    var rest := c.wq[1..];
    assert RunSlow in c.wq;
    assert RunSlow !in rest by { assert RunSlow !in multiset(rest); }
    assert RunSlow in rest + [RunSlow] by { assert (rest + [RunSlow])[|rest|] == RunSlow; }
  }

  // ----- every step keeps the invariant -----

  /** What holds while a worker has the mutex and is counted nowhere. */
  predicate Inside(c: Core, t: Tally) {
    && QueuesOk(c) && c.idle == t.waiting && c.slowRunning == t.held + t.back <= Threshold(c)
    && 0 <= t.back <= t.checking && 0 <= t.asleep <= t.waiting && t.held >= 0
    && (t.asleep > 0 ==> t.checking + 1 >= Runnable(c, t.held))
    && ExitOk(c, t)
  }

  /** The core once a worker `u` counted in t has left its wait or its slow work. */
  lemma {:induction false} EnteredInside(c: Core, t: Tally, u: Worker, c': Core)
    requires Sound(c, t) && (u.Contending? || u.Woken?)
    requires 0 <= t.asleep <= t.waiting && 0 <= t.back <= t.checking && t.held >= 0
    requires var r := t.Minus(Unit(u)); 0 <= r.back <= r.checking && 0 <= r.asleep <= r.waiting
    requires c' == c.(idle := c.idle - One(u.Woken?), slowRunning := c.slowRunning - One(u.Contending? && u.slow))
    ensures Inside(c', t.Minus(Unit(u)))
  {
    assert Runnable(c', t.held) == Runnable(c, t.held);
  }

  lemma {:induction false} EnteredOk(s: Pool, w: nat, x: Worker) returns (t: Tally)
    requires Scheduling(s) && w < |s.workers| && (s.workers[w].Contending? || s.workers[w].Woken?)
    ensures t == Total(s.workers).Minus(Unit(s.workers[w])) && Total(s.workers[w := x]) == t.Plus(Unit(x))
    ensures Inside(Entered(s, w), t) && Entered(s, w).nthreads == s.core.nthreads
  {
    TotalUpdate(s.workers, w, x);
    TotalOthers(s.workers, w);
    var c := Entered(s, w);
    t := Total(s.workers).Minus(Unit(s.workers[w]));
    EnteredInside(s.core, Total(s.workers), s.workers[w], c);
  }

  lemma {:induction false} WaitSound(c: Core, t: Tally)
    requires Inside(c, t) && Section(c).1.Wait?
    ensures Sound(Section(c).0, t.Plus(Unit(Sleeping)))
  {
    SectionOk(c, t.held);
  }

  lemma {:induction false} LeaveSound(c: Core, t: Tally)
    requires Inside(c, t) && Section(c).1.Leave?
    ensures Sound(Section(c).0, Signalled(t.Plus(Unit(Exited))))
  {
    SectionOk(c, t.held);
  }

  lemma {:induction false} TakeSound(c: Core, t: Tally)
    requires Inside(c, t) && Section(c).1.Take?
    ensures var (c', out) := Section(c);
      var t' := t.Plus(Unit(Holding(out.id, out.slow)));
      Sound(c', if out.signal then Signalled(t') else t')
  {
    SectionOk(c, t.held);
  }

  lemma {:induction false} EnterKeeps(s: Pool, w: nat, wake: nat)
    requires Scheduling(s) && Enabled(s, Enter(w, wake))
    ensures Scheduling(Apply(s, Enter(w, wake)))
  {
    var c := Entered(s, w);
    var x := match Section(c).1 case Wait => Sleeping case Leave => Exited case Take(id, slow, _) => Holding(id, slow);
    var t := EnteredOk(s, w, x);
    var workers := s.workers[w := x];
    SectionOk(c, t.held);
    match Section(c).1
    case Wait =>
      WaitSound(c, t);
    case Leave =>
      LeaveSound(c, t);
      assert Wakes(workers, wake);
      SignalTotal(workers, wake);
    case Take(_, _, _) =>
      TakeSound(c, t);
      assert Wakes(workers, wake);
      SignalTotal(workers, wake);
  }

  /** Appending one entry and signalling keeps a worker under way for it. */
  lemma {:induction false} AppendSound(c: Core, t: Tally, e: Entry, slowq: seq<Item>)
    requires Sound(c, t) && (e.Work? || e !in c.wq) && 0 <= t.asleep <= t.waiting && t.gone >= 0
    requires e.RunSlow? || slowq == c.slowq
    ensures Sound(c.(wq := c.wq + [e], slowq := slowq), if c.idle > 0 then Signalled(t) else t)
  {
    var c' := c.(wq := c.wq + [e], slowq := slowq);
    assert multiset(c'.wq) == multiset(c.wq) + multiset{e};
    assert RunSlow in c'.wq <==> RunSlow in c.wq || e == RunSlow;
    assert Runnable(c', t.held) <= Runnable(c, t.held) + 1;
  }

  lemma {:induction false} AppendKeeps(s: Pool, e: Entry, slowq: seq<Item>, wake: nat)
    requires Scheduling(s) && Wakes(s.workers, wake) && (e.Work? || e !in s.core.wq)
    requires e.RunSlow? || slowq == s.core.slowq
    ensures Scheduling(s.(core := s.core.(wq := s.core.wq + [e], slowq := slowq),
                          workers := if s.core.idle > 0 then Signal(s.workers, wake) else s.workers))
  {
    AppendSound(s.core, Total(s.workers), e, slowq);
    SignalTotal(s.workers, wake);
  }

  lemma {:induction false} SubmitKeeps(s: Pool, id: Item, loop: nat, slow: bool, wake: nat)
    requires Scheduling(s) && Enabled(s, Submit(id, loop, slow, wake))
    ensures Scheduling(Apply(s, Submit(id, loop, slow, wake)))
  {
    if !slow {
      AppendKeeps(s, Work(id), s.core.slowq, wake);
    } else if RunSlow !in s.core.wq {
      AppendKeeps(s, RunSlow, s.core.slowq + [id], wake);
    }
  }

  lemma {:induction false} WithoutKeepsHead(q: seq<Entry>, x: Entry)
    requires q != [] && q[0] != x
    ensures Without(q, x) != [] && Without(q, x)[0] == q[0]
  {
  }

  /** Taking a work item out of the queues leaves no more to do. */
  lemma {:induction false} WithoutOne(q: seq<Entry>, id: Item)
    ensures var r := Without(q, Work(id));
      && |q| - 1 <= |r| <= |q| && (RunSlow in r <==> RunSlow in q) && (Exit in r <==> Exit in q)
      && multiset(r)[RunSlow] == multiset(q)[RunSlow] && multiset(r)[Exit] == multiset(q)[Exit]
  {
    var r := Without(q, Work(id));
    WithoutLength(q, Work(id));
    assert RunSlow in multiset(r) <==> RunSlow in multiset(q);
    assert Exit in multiset(r) <==> Exit in multiset(q);
  }

  lemma {:induction false} WithoutLength(q: seq<Entry>, x: Entry)
    ensures |q| - 1 <= |Without(q, x)| <= |q|
    decreases |q|
  {
    if q != [] && q[0] != x { WithoutLength(q[1..], x); }
  }

  lemma {:induction false} CancelSound(c: Core, t: Tally, id: Item)
    requires Sound(c, t)
    ensures Sound(c.(wq := Without(c.wq, Work(id)), slowq := Without(c.slowq, id)), t)
  {
    var d := c.(wq := Without(c.wq, Work(id)), slowq := Without(c.slowq, id));
    CancelQueues(c, id);
    assert AwakeOk(d, t);
    assert ExitOk(d, t) by {
      if t.gone > 0 { WithoutKeepsHead(c.wq, Work(id)); }
    }
  }

  lemma {:induction false} CancelQueues(c: Core, id: Item)
    requires QueuesOk(c)
    ensures var d := c.(wq := Without(c.wq, Work(id)), slowq := Without(c.slowq, id));
      QueuesOk(d) && forall held :: Runnable(d, held) <= Runnable(c, held)
  {
    WithoutOne(c.wq, id);
    if c.slowq == [] {
      assert Without(c.slowq, id) == [];
    }
  }

  /** A worker comes back from its item: one more on the way, and perhaps room for slow work. */
  lemma {:induction false} BackSound(c: Core, t: Tally, id: Item, slow: bool)
    requires Sound(c, t) && t.held >= One(slow)
    ensures Sound(c, t.Minus(Unit(Finished(id, slow))).Plus(Unit(Contending(slow))))
  {
    assert Runnable(c, t.held - One(slow)) <= Runnable(c, t.held) + 1;
  }

  lemma {:induction false} PublishKeeps(s: Pool, w: nat)
    requires Scheduling(s) && Enabled(s, Publish(w))
    ensures Scheduling(Apply(s, Publish(w)))
  {
    var h := s.workers[w];
    TotalUpdate(s.workers, w, Contending(h.slow));
    BackSound(s.core, Total(s.workers), h.id, h.slow);
  }

  lemma {:induction false} CallWorkKeeps(s: Pool, w: nat)
    requires Scheduling(s) && Enabled(s, CallWork(w))
    ensures Scheduling(Apply(s, CallWork(w)))
  {
    TotalSame(s.workers, w, Finished(s.workers[w].id, s.workers[w].slow));
  }

  lemma {:induction false} TotalSame(workers: seq<Worker>, w: nat, x: Worker)
    requires w < |workers| && Unit(workers[w]) == Unit(x)
    ensures Total(workers[w := x]) == Total(workers)
  {
    TotalUpdate(workers, w, x);
  }

  lemma {:induction false} SpuriousKeeps(s: Pool, w: nat)
    requires Scheduling(s) && Enabled(s, Spurious(w))
    ensures Scheduling(Apply(s, Spurious(w)))
  {
    TotalUpdate(s.workers, w, Woken);
  }

  lemma {:induction false} StepKeeps(s: Pool, step: Step)
    requires Scheduling(s) && Enabled(s, step)
    ensures Scheduling(Apply(s, step))
  {
    match step
    case Enter(w, wake) => EnterKeeps(s, w, wake);
    case Submit(id, loop, slow, wake) => SubmitKeeps(s, id, loop, slow, wake);
    case CancelBegin(id) => CancelSound(s.core, Total(s.workers), id);
    case Shutdown(wake) => AppendKeeps(s, Exit, s.core.slowq, wake);
    case CancelEnd(_) =>
    case Drain(_) =>
    case Deliver(_) =>
    case Publish(w) => PublishKeeps(s, w);
    case CallWork(w) => CallWorkKeeps(s, w);
    case Spurious(w) => SpuriousKeeps(s, w);
  }

  lemma {:induction false} InitTotal(workers: seq<Worker>, n: nat)
    requires n <= |workers| && forall w :: 0 <= w < |workers| ==> workers[w] == Contending(false)
    ensures var t := Upto(workers, n); t.waiting == t.held == t.back == t.gone == 0 && t.checking == n
    decreases n
  {
    if n > 0 {
      InitTotal(workers, n - 1);
      var w := workers[n - 1];
      assert w.Contending? && !w.slow;
    }
  }

  lemma {:induction false} RunScheduling(run: seq<Pool>, steps: seq<Step>, i: nat)
    requires IsRun(run, steps) && i < |run|
    ensures Scheduling(run[i])
  {
    if i == 0 {
      InitTotal(run[0].workers, |run[0].workers|);
    } else {
      RunScheduling(run, steps, i - 1);
      assert IsStep(run[i - 1], steps[i - 1], run[i]);
      StepKeeps(run[i - 1], steps[i - 1]);
    }
  }

  // ----- what it means -----

  /** No wake-up is lost: in every reachable state, if the queue holds something to act on and a
      live worker exists, then some live worker is not asleep; and as long as anybody sleeps, some
      worker is on its way to the mutex to deal with it. */
  lemma {:induction false} NoLostWakeup(run: seq<Pool>, steps: seq<Step>, i: nat)
    requires IsRun(run, steps) && i < |run|
    requires !MustWait(run[i].core)
    requires exists w :: 0 <= w < |run[i].workers| && !run[i].workers[w].Exited?
    ensures exists w :: 0 <= w < |run[i].workers| && !run[i].workers[w].Exited? && !run[i].workers[w].Sleeping?
    ensures Sleeping in run[i].workers ==>
      exists w :: 0 <= w < |run[i].workers| && (run[i].workers[w].Contending? || run[i].workers[w].Woken?)
  {
    var s := run[i];
    RunScheduling(run, steps, i);
    if Sleeping in s.workers {
      var z :| 0 <= z < |s.workers| && s.workers[z] == Sleeping;
      TotalUpdate(s.workers, z, Woken);
      assert Unit(Sleeping).asleep == 1;
      RunnablePositive(s.core, Total(s.workers).held);
      TotalWitness(s.workers);
      var w :| 0 <= w < |s.workers| && Unit(s.workers[w]).checking > 0;
      assert s.workers[w].Contending? || s.workers[w].Woken?;
    } else {
      var w :| 0 <= w < |s.workers| && !s.workers[w].Exited?;
      assert s.workers[w] in s.workers;
    }
  }

  /** So the pool never sleeps on work: if every worker is asleep, both queues are empty. */
  lemma {:induction false} AllAsleepMeansEmpty(run: seq<Pool>, steps: seq<Step>, i: nat)
    requires IsRun(run, steps) && i < |run|
    requires forall w :: 0 <= w < |run[i].workers| ==> run[i].workers[w].Sleeping?
    ensures run[i].core.wq == [] && run[i].core.slowq == []
  {
    var s := run[i];
    RunScheduling(run, steps, i);
    ManyWorkers(run, steps, i);
    assert s.workers[0].Sleeping?;
    if !MustWait(s.core) {
      NoLostWakeup(run, steps, i);
    } else if Total(s.workers).held + Total(s.workers).back > 0 {
      var w := SlowWitness(s.workers, |s.workers|);
    }
  }

  predicate SlowInHand(w: Worker) {
    ((w.Holding? || w.Finished?) && w.slow) || w == Contending(true)
  }

  /** While slow work is at its limit somebody has some in hand, or is back from it. */
  lemma {:induction false} SlowWitness(workers: seq<Worker>, n: nat) returns (w: nat)
    requires n <= |workers| && Upto(workers, n).held + Upto(workers, n).back > 0
    ensures w < n && SlowInHand(workers[w])
    decreases n
  {
    if SlowInHand(workers[n - 1]) {
      w := n - 1;
    } else {
      w := SlowWitness(workers, n - 1);
    }
  }

  lemma {:induction false} ManyWorkers(run: seq<Pool>, steps: seq<Step>, i: nat)
    requires IsRun(run, steps) && i < |run|
    ensures |run[i].workers| >= 1
  {
    if i > 0 {
      ManyWorkers(run, steps, i - 1);
      assert IsStep(run[i - 1], steps[i - 1], run[i]);
    }
  }

  lemma {:induction false} RunnablePositive(c: Core, held: int)
    requires QueuesOk(c) && !MustWait(c) && held <= c.slowRunning
    ensures Runnable(c, held) >= 1
  {
    SplitHead(c);
    if c.wq[0].RunSlow? {
      assert |c.wq| == 1 ==> c.wq == [RunSlow];
    }
    assert |multiset(c.wq)| == |c.wq|;
  }

  /** At most half the workers, rounded up, do slow I/O, the counter says how many, the message that
      announces slow work is queued at most once, and while slow work is pending it is queued. */
  lemma {:induction false} SlowWorkBounded(run: seq<Pool>, steps: seq<Step>, i: nat)
    requires IsRun(run, steps) && i < |run|
    ensures run[i].core.slowRunning == Total(run[i].workers).held + Total(run[i].workers).back
    ensures run[i].core.slowRunning <= (|run[i].workers| + 1) / 2
    ensures multiset(run[i].core.wq)[RunSlow] <= 1
    ensures run[i].core.slowq != [] ==> RunSlow in run[i].core.wq
    ensures run[i].core.idle == Total(run[i].workers).waiting
  {
    RunScheduling(run, steps, i);
  }

  /** Shutdown reaches every worker: once one has left, each section that is entered ends in leaving,
      and somebody is always on the way to the mutex until no worker sleeps any more. */
  lemma {:induction false} ShutdownCascades(run: seq<Pool>, steps: seq<Step>, i: nat)
    requires IsRun(run, steps) && i < |run| && Exited in run[i].workers
    ensures run[i].core.wq != [] && run[i].core.wq[0] == Exit
    ensures forall w :: 0 <= w < |run[i].workers| && (run[i].workers[w].Contending? || run[i].workers[w].Woken?) ==>
      SlowOnce(Entered(run[i], w)) && Section(Entered(run[i], w)).1 == Leave
    ensures Sleeping in run[i].workers ==>
      exists w :: 0 <= w < |run[i].workers| && (run[i].workers[w].Contending? || run[i].workers[w].Woken?)
  {
    var s := run[i];
    ExitInFront(run, steps, i);
    forall w | 0 <= w < |s.workers| && (s.workers[w].Contending? || s.workers[w].Woken?)
      ensures SlowOnce(Entered(s, w)) && Section(Entered(s, w)).1 == Leave
    {
      LeavesAtOnce(Entered(s, w));
    }
    if Sleeping in s.workers {
      NoLostWakeup(run, steps, i);
    }
  }

  lemma {:induction false} ExitInFront(run: seq<Pool>, steps: seq<Step>, i: nat)
    requires IsRun(run, steps) && i < |run| && Exited in run[i].workers
    ensures QueuesOk(run[i].core) && run[i].core.wq != [] && run[i].core.wq[0] == Exit
  {
    var s := run[i];
    RunScheduling(run, steps, i);
    var z :| 0 <= z < |s.workers| && s.workers[z] == Exited;
    UptoAtLeast(s.workers, z, |s.workers|);
  }

  lemma {:induction false} LeavesAtOnce(c: Core)
    requires SlowOnce(c) && c.wq != [] && c.wq[0] == Exit
    ensures Section(c) == (c, Leave)
  {
  }

  // ----- slow work is not held back -----

  /** The workers other than w, among the first n, that have slow work in hand or are back from it. */
  function SlowOthers(workers: seq<Worker>, n: nat, w: nat): (r: set<nat>)
    requires n <= |workers|
  {
    set v: nat | v < n && v != w && SlowInHand(workers[v])
  }

  lemma {:induction false} SlowOthersCount(workers: seq<Worker>, n: nat, w: nat)
    requires n <= |workers| && w < |workers|
    ensures |SlowOthers(workers, n, w)| ==
      Upto(workers, n).held + Upto(workers, n).back - One(w < n && SlowInHand(workers[w]))
    decreases n
  {
    if n > 0 {
      SlowOthersCount(workers, n - 1, w);
      var v: nat, was := n - 1, SlowOthers(workers, n - 1, w);
      assert SlowOthers(workers, n, w) == if v != w && SlowInHand(workers[v]) then was + {v} else was;
    } else {
      assert SlowOthers(workers, 0, w) == {};
    }
  }

  /** The counter as an entering worker finds it says how many others have slow work. */
  lemma {:induction false} EnteredCounts(s: Pool, w: nat)
    requires Scheduling(s) && w < |s.workers| && (s.workers[w].Contending? || s.workers[w].Woken?)
    ensures Entered(s, w).slowRunning == |SlowOthers(s.workers, |s.workers|, w)|
    ensures QueuesOk(Entered(s, w)) && 0 <= Entered(s, w).slowRunning <= Threshold(s.core)
    ensures Threshold(s.core) == (|s.workers| + 1) / 2
  {
    SlowOthersCount(s.workers, |s.workers|, w);
  }

  /** A worker that goes to sleep while slow work is pending has a reason: half of all workers, rounded up, have slow
      work already. */
  lemma {:induction false} WaitsAtLimit(run: seq<Pool>, steps: seq<Step>, i: nat, w: nat)
    requires IsRun(run, steps) && i < |run| && w < |run[i].workers|
    requires run[i].workers[w].Contending? || run[i].workers[w].Woken?
    requires run[i].core.slowq != []
    ensures SlowOnce(Entered(run[i], w))
    ensures Section(Entered(run[i], w)).1 == Wait ==>
      |SlowOthers(run[i].workers, |run[i].workers|, w)| == (|run[i].workers| + 1) / 2
  {
    var s := run[i];
    RunScheduling(run, steps, i);
    EnteredCounts(s, w);
    var c := Entered(s, w);
    SectionOk(c, c.slowRunning);
    if Section(c).1 == Wait { assert Section(c).0.slowq == c.slowq; }
  }

  /** Below that number a worker that finds the slow-work message at the head takes the first slow request. */
  lemma {:induction false} TakesBelowLimit(run: seq<Pool>, steps: seq<Step>, i: nat, w: nat)
    requires IsRun(run, steps) && i < |run| && w < |run[i].workers|
    requires run[i].workers[w].Contending? || run[i].workers[w].Woken?
    requires run[i].core.wq != [] && run[i].core.wq[0] == RunSlow && run[i].core.slowq != []
    requires |SlowOthers(run[i].workers, |run[i].workers|, w)| < (|run[i].workers| + 1) / 2
    ensures SlowOnce(Entered(run[i], w))
    ensures var (c, out) := Section(Entered(run[i], w));
      out.Take? && out.slow && out.id == run[i].core.slowq[0] && c.slowq == run[i].core.slowq[1..]
  {
    RunScheduling(run, steps, i);
    EnteredCounts(run[i], w);
  }

  /** What a worker does by what stands in the queue, where `busy` workers have slow work already: it takes the first
      slow request if the message for it is at the head and fewer than half of all workers, rounded up, are busy.
      Otherwise it acts on the first entry that is not that message: leaves, runs a request or, if there is none,
      waits. */
  predicate Decides(c: Core, busy: nat, out: Outcome) {
    var announced := c.wq != [] && c.wq[0] == RunSlow;
    var rest := if announced then c.wq[1..] else c.wq;
    if announced && c.slowq != [] && busy < (c.nthreads + 1) / 2 then
      out == Take(c.slowq[0], true, |c.slowq| > 1 && c.idle > 0)
    else if rest == [] then out == Wait
    else if rest[0] == Exit then out == Leave
    else rest[0].Work? && out == Take(rest[0].id, false, false)
  }

  lemma {:induction false} HeadDecides(c: Core)
    requires QueuesOk(c) && c.slowRunning >= 0
    ensures Decides(c, c.slowRunning, Section(c).1)
  {
    if Loops(c) {
      NextOk(c, 0);
      SectionNext(c);
      SkippedDecides(c);
    }
  }

  lemma {:induction false} SkippedDecides(c: Core)
    requires QueuesOk(c) && c.slowRunning >= 0 && Loops(c) && QueuesOk(Next(c))
    ensures Decides(c, c.slowRunning, Section(Next(c)).1)
  {
    var rest, d := c.wq[1..], Next(c);
    SplitHead(c);
    assert RunSlow !in rest by { assert RunSlow !in multiset(rest); }
    if rest != [] {
      assert d.wq[0] == rest[0] != RunSlow;
    } else {
      assert d.wq == [];
    }
  }

  /** In every reachable state the section of a worker does just that. */
  lemma {:induction false} SectionExactly(run: seq<Pool>, steps: seq<Step>, i: nat, w: nat)
    requires IsRun(run, steps) && i < |run| && w < |run[i].workers|
    requires run[i].workers[w].Contending? || run[i].workers[w].Woken?
    ensures SlowOnce(Entered(run[i], w)) && Entered(run[i], w).nthreads == |run[i].workers|
    ensures Decides(Entered(run[i], w), |SlowOthers(run[i].workers, |run[i].workers|, w)|,
                    Section(Entered(run[i], w)).1)
  {
    RunScheduling(run, steps, i);
    EnteredCounts(run[i], w);
    HeadDecides(Entered(run[i], w));
  }
}
