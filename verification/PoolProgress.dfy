/** How runs of the pool can go on: from which states every request is delivered, which pending slow requests can
    still run at shutdown, and that every worker can leave. */
module PoolProgress {
  import opened Common
  import opened ThreadPool
  import opened PoolScheduling
  import opened PoolConservation
  import opened PoolShutdown

  // ----- runs that go on -----

  /** The pool goes on by itself: nobody submits or cancels a request or shuts the pool down. */
  predicate Internal(step: Step) { !step.Submit? && !step.CancelBegin? && !step.Shutdown? }

  ghost predicate Extends(run: seq<Pool>, steps: seq<Step>, run': seq<Pool>, steps': seq<Step>) {
    && |run| <= |run'| && run'[..|run|] == run
    && |steps| <= |steps'| && steps'[..|steps|] == steps
  }

  ghost predicate Continues(run: seq<Pool>, steps: seq<Step>, run': seq<Pool>, steps': seq<Step>) {
    Extends(run, steps, run', steps') && forall i :: |steps| <= i < |steps'| ==> Internal(steps'[i])
  }

  function Last(run: seq<Pool>): (s: Pool)
    requires run != []
  {
    run[|run| - 1]
  }

  lemma {:induction false} GoOn(run: seq<Pool>, steps: seq<Step>, step: Step)
    returns (run': seq<Pool>, steps': seq<Step>)
    requires IsRun(run, steps) && Enabled(Last(run), step)
    ensures IsRun(run', steps') && Extends(run, steps, run', steps')
    ensures Internal(step) ==> Continues(run, steps, run', steps')
    ensures Last(run') == Apply(Last(run), step)
  {
    run', steps' := run + [Apply(Last(run), step)], steps + [step];
    forall i | 0 <= i < |steps'| ensures IsStep(run'[i], steps'[i], run'[i + 1]) {
      if i < |steps| { assert IsStep(run[i], steps[i], run[i + 1]); }
    }
  }

  lemma {:induction false} ExtendsOn(run: seq<Pool>, steps: seq<Step>, run1: seq<Pool>, steps1: seq<Step>,
                                     run2: seq<Pool>, steps2: seq<Step>)
    requires Extends(run, steps, run1, steps1) && Extends(run1, steps1, run2, steps2)
    ensures Extends(run, steps, run2, steps2)
  {
    assert run2[..|run|] == run2[..|run1|][..|run|];
    assert steps2[..|steps|] == steps2[..|steps1|][..|steps|];
  }

  lemma {:induction false} ContinuesOn(run: seq<Pool>, steps: seq<Step>, run1: seq<Pool>, steps1: seq<Step>,
                                       run2: seq<Pool>, steps2: seq<Step>)
    requires Continues(run, steps, run1, steps1) && Continues(run1, steps1, run2, steps2)
    ensures Continues(run, steps, run2, steps2)
  {
    ExtendsOn(run, steps, run1, steps1, run2, steps2);
    forall i | |steps| <= i < |steps2| ensures Internal(steps2[i]) {
      if i < |steps1| { assert steps2[..|steps1|][i] == steps1[i]; }
    }
  }

  // ----- what the pool keeps when it goes on by itself -----

  lemma {:induction false} SectionExit(c: Core)
    requires QueuesOk(c)
    ensures Exit in Section(c).0.wq <==> Exit in c.wq
    decreases |c.wq|, if c.wq != [] && c.wq[0].RunSlow? then 1 else 0
  {
    if Loops(c) {
      NextOk(c, c.slowRunning);
      SectionNext(c);
      SectionExit(Next(c));
      assert Exit in Next(c).wq <==> Exit in c.wq[1..];
    }
    if c.wq != [] { assert c.wq == [c.wq[0]] + c.wq[1..]; }
  }

  /** The exit message is neither sent nor taken away, the requests are the same, and what is delivered stays so. */
  predicate Steady(s: Pool, s': Pool) {
    && (Exit in s'.core.wq <==> Exit in s.core.wq) && s'.requests.Keys == s.requests.Keys
    && |s'.workers| == |s.workers|
    && forall id :: id in s.requests && s.requests[id].done != [] ==> s'.requests[id].done != []
  }

  lemma {:induction false} StepSteady(s: Pool, step: Step)
    requires Scheduling(s) && Enabled(s, step) && Internal(step)
    ensures Steady(s, Apply(s, step))
  {
    if step.Enter? {
      assert QueuesOk(Entered(s, step.w));
      SectionExit(Entered(s, step.w));
    }
  }

  lemma {:induction false} StaysSteady(run: seq<Pool>, steps: seq<Step>, run': seq<Pool>, steps': seq<Step>, j: nat)
    requires IsRun(run, steps) && IsRun(run', steps') && Continues(run, steps, run', steps') && |run| - 1 <= j < |run'|
    ensures Steady(Last(run), run'[j])
    decreases j
  {
    if j == |run| - 1 {
      assert run'[j] == run'[..|run|][j];
    } else {
      StaysSteady(run, steps, run', steps', j - 1);
      RunScheduling(run', steps', j - 1);
      assert IsStep(run'[j - 1], steps'[j - 1], run'[j]);
      StepSteady(run'[j - 1], steps'[j - 1]);
    }
  }

  // ----- workers -----

  lemma {:induction false} PickWake(workers: seq<Worker>) returns (wake: nat)
    ensures Wakes(workers, wake)
  {
    wake := 0;
    if Sleeping in workers { wake :| wake < |workers| && workers[wake] == Sleeping; }
  }

  lemma {:induction false} CanCall(run: seq<Pool>, steps: seq<Step>, w: nat)
    requires IsRun(run, steps) && w < |Last(run).workers|
    ensures Last(run).workers[w].Holding? ==> Enabled(Last(run), CallWork(w))
    ensures Last(run).workers[w].Finished? ==> Enabled(Last(run), Publish(w))
  {
    RunConserves(run, steps, |run| - 1);
    var h := Last(run).workers[w];
    if h.Holding? || h.Finished? {
      assert ItemOk(Last(run), h.id);
      HeldUpdate(Last(run).workers, w, Woken, h.id, h.Finished?);
    }
  }

  /** A worker with a request in hand, or asleep, gets ready to enter; the queues and the other workers stay as they
      are. */
  lemma {:induction false} GetReady(run: seq<Pool>, steps: seq<Step>, w: nat)
    returns (run': seq<Pool>, steps': seq<Step>)
    requires IsRun(run, steps) && w < |Last(run).workers| && !Last(run).workers[w].Exited?
    ensures IsRun(run', steps') && Continues(run, steps, run', steps')
    ensures var s, s' := Last(run), Last(run');
      && s'.core == s.core && |s'.workers| == |s.workers| && s'.workers == s.workers[w := s'.workers[w]]
      && (s'.workers[w].Contending? || s'.workers[w].Woken?)
      && (SlowInHand(s.workers[w]) ==> s'.workers[w] == Contending(true))
  {
    run', steps' := run, steps;
    var s := Last(run);
    if s.workers[w].Sleeping? {
      run', steps' := GoOn(run, steps, Spurious(w));
    } else if s.workers[w].Holding? {
      CanCall(run, steps, w);
      var run1, steps1 := GoOn(run, steps, CallWork(w));
      CanCall(run1, steps1, w);
      run', steps' := GoOn(run1, steps1, Publish(w));
      ContinuesOn(run, steps, run1, steps1, run', steps');
    } else if s.workers[w].Finished? {
      CanCall(run, steps, w);
      run', steps' := GoOn(run, steps, Publish(w));
    }
  }

  // ----- requests that can be reached -----

  /** The request is queued, and the exit message is not; or it is the first pending slow request and not barred. */
  predicate Attainable(c: Core, id: Item) {
    || (Exit !in c.wq && Queued(c, id) > 0)
    || (c.slowq != [] && c.slowq[0] == id && !Barred(c.wq))
  }

  function Load(c: Core): (n: nat) { |c.wq| + |c.slowq| }

  lemma {:induction false} FreeOfExit(q: seq<Entry>)
    requires Exit !in q
    ensures !Barred(q)
  {
    if q != [] { FreeOfExit(q[1..]); }
  }

  lemma {:induction false} AttainableFree(c: Core, id: Item)
    requires QueuesOk(c) && Attainable(c, id)
    ensures !Barred(c.wq) && c.wq != []
  {
    if Exit !in c.wq { FreeOfExit(c.wq); }
  }

  /** A section with room for slow work takes a request: this one, or another that leaves less in its way. */
  predicate Nearer(c: Core, c': Core, out: Outcome, id: Item) {
    && out.Take? && c'.nthreads == c.nthreads && c'.slowRunning == c.slowRunning + One(out.slow)
    && (out.id != id ==> Attainable(c', id) && Load(c') < Load(c))
  }

  lemma {:induction false} SectionNearer(c: Core, id: Item)
    requires QueuesOk(c) && c.slowRunning < Threshold(c) && Attainable(c, id)
    ensures Nearer(c, Section(c).0, Section(c).1, id)
    decreases |c.wq|
  {
    AttainableFree(c, id);
    if Loops(c) {
      NextOk(c, c.slowRunning);
      SectionNext(c);
      NextAttainable(c, id);
      SectionNearer(Next(c), id);
    } else {
      TakeNearer(c, id);
    }
  }

  lemma {:induction false} NextAttainable(c: Core, id: Item)
    requires Loops(c) && c.slowRunning < Threshold(c) && Attainable(c, id)
    ensures Attainable(Next(c), id) && Load(Next(c)) < Load(c)
  {
    NextConserves(c, id);
    assert Exit in Next(c).wq ==> Exit in c.wq;
  }

  lemma {:induction false} TakeNearer(c: Core, id: Item)
    requires QueuesOk(c) && c.slowRunning < Threshold(c) && Attainable(c, id) && !Loops(c)
    ensures Nearer(c, Section(c).0, Section(c).1, id)
  {
    AttainableFree(c, id);
    SectionConserves(c, id);
    SectionExit(c);
  }

  /** A worker that can enter, with room for slow work once it has entered. */
  predicate Ready(s: Pool, w: nat) {
    && w < |s.workers| && (s.workers[w].Contending? || s.workers[w].Woken?)
    && Entered(s, w).slowRunning < Threshold(s.core)
  }

  /** Entering, a ready worker takes a request. */
  lemma {:induction false} EnterNearer(s: Pool, w: nat, wake: nat, id: Item)
    requires Scheduling(s) && Attainable(s.core, id) && Ready(s, w) && Wakes(s.workers, wake)
    ensures Enabled(s, Enter(w, wake))
    ensures var s' := Apply(s, Enter(w, wake));
      && w < |s'.workers| && s'.workers[w].Holding? && s'.requests == s.requests
      && Nearer(Entered(s, w), s'.core, Take(s'.workers[w].id, s'.workers[w].slow, false), id)
  {
    var c := Entered(s, w);
    assert QueuesOk(c) && Attainable(c, id);
    SectionNearer(c, id);
  }

  /** One round of a ready worker: it takes a request, calls its function, hands it on and is ready again. */
  lemma {:induction false} Round(run: seq<Pool>, steps: seq<Step>, w: nat, id: Item)
    returns (run': seq<Pool>, steps': seq<Step>)
    requires IsRun(run, steps) && Attainable(Last(run).core, id) && Ready(Last(run), w)
    ensures IsRun(run', steps') && Continues(run, steps, run', steps') && Ready(Last(run'), w)
    ensures Called(Last(run'), id) || (Attainable(Last(run').core, id) && Load(Last(run').core) < Load(Last(run).core))
  {
    var s := Last(run);
    RunScheduling(run, steps, |run| - 1);
    var wake := PickWake(s.workers);
    EnterNearer(s, w, wake, id);
    var run1, steps1 := GoOn(run, steps, Enter(w, wake));
    CanCall(run1, steps1, w);
    var run2, steps2 := GoOn(run1, steps1, CallWork(w));
    CallOnce(run1, steps1, w);
    CanCall(run2, steps2, w);
    run', steps' := GoOn(run2, steps2, Publish(w));
    ContinuesOn(run, steps, run1, steps1, run2, steps2);
    ContinuesOn(run, steps, run2, steps2, run', steps');
  }

  /** The function of the request has been called. */
  predicate Called(s: Pool, id: Item) { id in s.requests && s.requests[id].ran == 1 }

  /** A request in hand whose function is to be called has not been called before. */
  lemma {:induction false} CallOnce(run: seq<Pool>, steps: seq<Step>, w: nat)
    requires IsRun(run, steps) && w < |Last(run).workers| && Last(run).workers[w].Holding?
    ensures var id := Last(run).workers[w].id; id in Last(run).requests && Last(run).requests[id].ran == 0
  {
    RunConserves(run, steps, |run| - 1);
    var id := Last(run).workers[w].id;
    assert ItemOk(Last(run), id);
    HeldUpdate(Last(run).workers, w, Woken, id, false);
  }

  /** Others are worked off one by one, until the request is taken. */
  lemma {:induction false} WorkOff(run: seq<Pool>, steps: seq<Step>, w: nat, id: Item)
    returns (run': seq<Pool>, steps': seq<Step>)
    requires IsRun(run, steps) && Attainable(Last(run).core, id) && Ready(Last(run), w)
    ensures IsRun(run', steps') && Continues(run, steps, run', steps') && Called(Last(run'), id)
    decreases Load(Last(run).core)
  {
    var run1, steps1 := Round(run, steps, w, id);
    run', steps' := run1, steps1;
    if !Called(Last(run1), id) {
      run', steps' := WorkOff(run1, steps1, w, id);
      ContinuesOn(run, steps, run1, steps1, run', steps');
    }
  }

  /** No worker has left as long as nothing bars the way. */
  lemma {:induction false} NobodyGone(s: Pool)
    requires Scheduling(s) && !Barred(s.core.wq)
    ensures forall w :: 0 <= w < |s.workers| ==> !s.workers[w].Exited?
  {
    forall w | 0 <= w < |s.workers| ensures !s.workers[w].Exited? {
      UptoAtLeast(s.workers, w, |s.workers|);
    }
  }

  /** Somebody can be brought to enter with room for slow work. */
  lemma {:induction false} MakeReady(run: seq<Pool>, steps: seq<Step>)
    returns (run': seq<Pool>, steps': seq<Step>, w: nat)
    requires IsRun(run, steps) && !Barred(Last(run).core.wq)
    ensures IsRun(run', steps') && Continues(run, steps, run', steps')
    ensures Last(run').core == Last(run).core && Ready(Last(run'), w)
  {
    var s := Last(run);
    RunScheduling(run, steps, |run| - 1);
    ManyWorkers(run, steps, |run| - 1);
    NobodyGone(s);
    w := 0;
    if s.core.slowRunning >= Threshold(s.core) {
      w := SlowWitness(s.workers, |s.workers|);
    }
    run', steps' := GetReady(run, steps, w);
  }

  /** The pool by itself can get to call the function of every attainable request. */
  lemma {:induction false} AttainableRuns(run: seq<Pool>, steps: seq<Step>, id: Item)
    returns (run': seq<Pool>, steps': seq<Step>)
    requires IsRun(run, steps) && Attainable(Last(run).core, id)
    ensures IsRun(run', steps') && Continues(run, steps, run', steps') && Called(Last(run'), id)
  {
    RunScheduling(run, steps, |run| - 1);
    AttainableFree(Last(run).core, id);
    var run1, steps1, w := MakeReady(run, steps);
    run', steps' := WorkOff(run1, steps1, w, id);
    ContinuesOn(run, steps, run1, steps1, run', steps');
  }

  // ----- pending slow work at shutdown -----

  ghost predicate RunsIn(run: seq<Pool>, steps: seq<Step>, run': seq<Pool>, steps': seq<Step>, id: Item) {
    IsRun(run', steps') && Extends(run, steps, run', steps') && run' != [] && Called(Last(run'), id)
  }

  /** The first pending request can be cancelled, once a cancel under way in its loop is over. */
  lemma {:induction false} CancelFirst(run: seq<Pool>, steps: seq<Step>)
    returns (run': seq<Pool>, steps': seq<Step>)
    requires IsRun(run, steps) && Last(run).core.slowq != []
    ensures IsRun(run', steps') && Extends(run, steps, run', steps')
    ensures Last(run').core == Last(run).core.(slowq := Last(run).core.slowq[1..])
  {
    var s := Last(run);
    var x := s.core.slowq[0];
    PendingRequest(run, steps, x);
    var run1, steps1 := EndCancel(run, steps, s.requests[x].loop);
    PendingRequest(run1, steps1, x);
    WithoutNone(s.core.wq, Work(x));
    run', steps' := GoOn(run1, steps1, CancelBegin(x));
    ExtendsOn(run, steps, run1, steps1, run', steps');
  }

  /** What is known of a pending request. */
  lemma {:induction false} PendingRequest(run: seq<Pool>, steps: seq<Step>, x: Item)
    requires IsRun(run, steps) && x in Last(run).core.slowq
    ensures var s := Last(run);
      && x in s.requests && s.requests[x].loop < |s.loops| && s.requests[x].work == Function
      && Work(x) !in s.core.wq
  {
    var s := Last(run);
    RunConserves(run, steps, |run| - 1);
    PendingWaits(s, x);
    assert ItemOk(s, x);
    assert multiset(s.core.slowq)[x] > 0;
  }

  /** A cancel under way in a loop comes to its end. */
  lemma {:induction false} EndCancel(run: seq<Pool>, steps: seq<Step>, loop: nat)
    returns (run': seq<Pool>, steps': seq<Step>)
    requires IsRun(run, steps) && loop < |Last(run).loops|
    ensures IsRun(run', steps') && Continues(run, steps, run', steps')
    ensures var s, s' := Last(run), Last(run');
      && s'.core == s.core && s'.requests.Keys == s.requests.Keys && |s'.loops| == |s.loops|
      && s'.loops[loop].cancelling.None? && s'.loops[loop].drained == s.loops[loop].drained
      && (forall id :: id in s.requests ==> s'.requests[id].loop == s.requests[id].loop)
      && s'.loops[loop].queue ==
           s.loops[loop].queue + (match s.loops[loop].cancelling case None => [] case Some(id) => [id])
  {
    run', steps' := run, steps;
    if Last(run).loops[loop].cancelling.Some? {
      NeverStuck(run, steps, |run| - 1);
      run', steps' := GoOn(run, steps, CancelEnd(loop));
    } else {
      assert Last(run).loops[loop].queue + [] == Last(run).loops[loop].queue;
    }
  }

  /** Without the bar every pending request can run, if those in front of it are cancelled. */
  lemma {:induction false} PendingCanRun(run: seq<Pool>, steps: seq<Step>, k: nat)
    returns (run': seq<Pool>, steps': seq<Step>)
    requires IsRun(run, steps) && k < |Last(run).core.slowq| && !Barred(Last(run).core.wq)
    ensures RunsIn(run, steps, run', steps', Last(run).core.slowq[k])
    decreases k
  {
    if k == 0 {
      run', steps' := AttainableRuns(run, steps, Last(run).core.slowq[0]);
    } else {
      var run1, steps1 := CancelFirst(run, steps);
      run', steps' := PendingCanRun(run1, steps1, k - 1);
      ExtendsOn(run, steps, run1, steps1, run', steps');
    }
  }

  /** In every reachable state: some continuation runs a pending slow request if and only if no exit message stands in
      the queue without a slow-work message in front of it. */
  lemma {:induction false} PendingRunsUnlessBarred(run: seq<Pool>, steps: seq<Step>, k: nat)
    requires IsRun(run, steps) && k < |Last(run).core.slowq|
    ensures (exists run', steps' :: RunsIn(run, steps, run', steps', Last(run).core.slowq[k])) <==>
      !Barred(Last(run).core.wq)
  {
    var id := Last(run).core.slowq[k];
    if Barred(Last(run).core.wq) {
      forall run', steps' ensures !RunsIn(run, steps, run', steps', id) {
        if IsRun(run', steps') && Extends(run, steps, run', steps') {
          assert run'[|run| - 1] == run'[..|run|][|run| - 1];
          PendingNeverRuns(run', steps', |run| - 1, |run'| - 1, id);
        }
      }
    } else {
      var run', steps' := PendingCanRun(run, steps, k);
      assert RunsIn(run, steps, run', steps', id);
    }
  }

  /** The same by a continuation in which nobody cancels anything. */
  ghost predicate RunsUncancelled(run: seq<Pool>, steps: seq<Step>, run': seq<Pool>, steps': seq<Step>, id: Item) {
    RunsIn(run, steps, run', steps', id) && forall i :: |steps| <= i < |steps'| ==> !steps'[i].CancelBegin?
  }

  /** In every reachable state: some continuation without a cancel runs the k-th pending slow request if and only if
      it is not barred and, should the exit message be queued, it is the first. */
  lemma {:induction false} PendingRunsUncancelled(run: seq<Pool>, steps: seq<Step>, k: nat)
    requires IsRun(run, steps) && k < |Last(run).core.slowq|
    ensures (exists run', steps' :: RunsUncancelled(run, steps, run', steps', Last(run).core.slowq[k])) <==>
      !Barred(Last(run).core.wq) && (k == 0 || Exit !in Last(run).core.wq)
  {
    var c := Last(run).core;
    var id := c.slowq[k];
    if !Barred(c.wq) && (k == 0 || Exit !in c.wq) {
      assert multiset(c.slowq)[id] > 0;
      var run', steps' := AttainableRuns(run, steps, id);
      assert RunsUncancelled(run, steps, run', steps', id);
    } else {
      forall run', steps' ensures !RunsUncancelled(run, steps, run', steps', id) {
        NotUncancelled(run, steps, run', steps', k);
      }
    }
  }

  lemma {:induction false} NotUncancelled(run: seq<Pool>, steps: seq<Step>, run': seq<Pool>, steps': seq<Step>, k: nat)
    requires IsRun(run, steps) && k < |Last(run).core.slowq|
    requires Barred(Last(run).core.wq) || (k > 0 && Exit in Last(run).core.wq)
    ensures !RunsUncancelled(run, steps, run', steps', Last(run).core.slowq[k])
  {
    var c := Last(run).core;
    var id, i := c.slowq[k], |run| - 1;
    if RunsUncancelled(run, steps, run', steps', id) {
      assert run'[i] == run'[..|run|][i];
      if Barred(c.wq) {
        PendingNeverRuns(run', steps', i, |run'| - 1, id);
      } else {
        assert c.slowq[1..][k - 1] == id;
        BehindNeverRuns(run', steps', i, |run'| - 1, id);
      }
    }
  }

  // ----- runs that lose pending work -----

  /** With two workers, one of them busy with slow request 1, the other finds the slow-work message for request 2 at its
      limit, puts it back behind the exit message and leaves. Request 2 is never run. */
  lemma {:induction false} PendingLost() returns (run: seq<Pool>, steps: seq<Step>)
    ensures IsRun(run, steps) && Last(run).core.wq == [Exit, RunSlow] && Last(run).core.slowq == [2]
    ensures Last(run).workers == [Holding(1, true), Exited]
    ensures forall run', steps' :: !RunsIn(run, steps, run', steps', 2)
  {
    run, steps := LostStates(), LostSteps();
    forall i | 0 <= i < |steps| ensures IsStep(run[i], steps[i], run[i + 1]) { LostStep(i); }
    var s := Last(run);
    assert s.core.slowq[0] == 2 && Barred(s.core.wq);
    PendingRunsUnlessBarred(run, steps, 0);
    forall run', steps' ensures !RunsIn(run, steps, run', steps', 2) {
      assert !RunsIn(run, steps, run', steps', s.core.slowq[0]);
    }
  }

  function LostStates(): (run: seq<Pool>)
    ensures |run| == 6
  {
    var loops, idle, busy := [Loop([], [], None)], Contending(false), Holding(1, true);
    var r := Request(0, Function, 0, []);
    [Pool(Core(2, 0, 0, [], []), [idle, idle], map[], loops),
     Pool(Core(2, 0, 0, [RunSlow], [1]), [idle, idle], map[1 := r], loops),
     Pool(Core(2, 0, 1, [], []), [busy, idle], map[1 := r], loops),
     Pool(Core(2, 0, 1, [RunSlow], [2]), [busy, idle], map[1 := r, 2 := r], loops),
     Pool(Core(2, 0, 1, [RunSlow, Exit], [2]), [busy, idle], map[1 := r, 2 := r], loops),
     Pool(Core(2, 0, 1, [Exit, RunSlow], [2]), [busy, Exited], map[1 := r, 2 := r], loops)]
  }

  function LostSteps(): (steps: seq<Step>)
    ensures |steps| == 5
  {
    [Submit(1, 0, true, 0), Enter(0, 0), Submit(2, 0, true, 0), Shutdown(0), Enter(1, 0)]
  }

  lemma {:induction false} LostStep(i: nat)
    requires i < 5
    ensures IsStep(LostStates()[i], LostSteps()[i], LostStates()[i + 1])
  {
    if i == 0 { LostSubmit(0); } else if i == 1 { LostTake(); } else if i == 2 { LostSubmit(2); }
    else if i == 3 { LostExit(); } else { LostLeave(); }
  }

  lemma {:induction false} LostSubmit(i: nat)
    requires i == 0 || i == 2
    ensures IsStep(LostStates()[i], LostSteps()[i], LostStates()[i + 1])
  {
    var s, s' := LostStates()[i], LostStates()[i + 1];
    assert s'.requests == s.requests[(if i == 0 then 1 else 2) := Request(0, Function, 0, [])];
  }

  lemma {:induction false} LostTake()
    ensures IsStep(LostStates()[1], LostSteps()[1], LostStates()[2])
  {
    TakesFirst();
    assert LostStates()[2].workers == LostStates()[1].workers[0 := Holding(1, true)];
  }

  lemma {:induction false} LostExit()
    ensures IsStep(LostStates()[3], LostSteps()[3], LostStates()[4])
  {
    assert LostStates()[4].core.wq == LostStates()[3].core.wq + [Exit];
  }

  lemma {:induction false} LostLeave()
    ensures IsStep(LostStates()[4], LostSteps()[4], LostStates()[5])
  {
    PutsBack();
    assert LostStates()[5].workers == LostStates()[4].workers[1 := Exited];
  }

  lemma {:induction false} TakesFirst()
    ensures var c := Core(2, 0, 0, [RunSlow], [1]);
      SlowOnce(c) && Section(c) == (Core(2, 0, 1, [], []), Take(1, true, false))
  {
    var c := Core(2, 0, 0, [RunSlow], [1]);
    assert c.wq[1..] == [] && c.slowq[1..] == [];
    assert multiset(c.wq) == multiset{RunSlow};
  }

  lemma {:induction false} PutsBack()
    ensures var c := Core(2, 0, 1, [RunSlow, Exit], [2]);
      SlowOnce(c) && Section(c) == (c.(wq := [Exit, RunSlow]), Leave)
  {
    var c := Core(2, 0, 1, [RunSlow, Exit], [2]);
    var d := c.(wq := [Exit, RunSlow]);
    assert multiset(c.wq) == multiset{RunSlow, Exit} && multiset(d.wq) == multiset{RunSlow, Exit};
    assert Section(d) == (d, Leave);
    assert c.wq[1..] + [RunSlow] == [Exit, RunSlow];
  }

  /** Not barred, and lost all the same: two slow requests are pending when the exit message is queued. Request 1 can
      run, request 2 only if something is cancelled. */
  lemma {:induction false} SecondLost() returns (run: seq<Pool>, steps: seq<Step>)
    ensures IsRun(run, steps) && Last(run).core.wq == [RunSlow, Exit] && Last(run).core.slowq == [1, 2]
    ensures exists run', steps' :: RunsUncancelled(run, steps, run', steps', 1)
    ensures forall run', steps' :: !RunsUncancelled(run, steps, run', steps', 2)
    ensures exists run', steps' :: RunsIn(run, steps, run', steps', 2)
  {
    run, steps := PairStates(), PairSteps();
    forall i | 0 <= i < |steps| ensures IsStep(run[i], steps[i], run[i + 1]) { PairStep(i); }
    var s := Last(run);
    assert s.core.slowq[0] == 1 && s.core.slowq[1] == 2;
    assert !Barred(s.core.wq) && s.core.wq[1] == Exit;
    PendingRunsUncancelled(run, steps, 0);
    PendingRunsUnlessBarred(run, steps, 1);
    forall run', steps' ensures !RunsUncancelled(run, steps, run', steps', 2) {
      NotUncancelled(run, steps, run', steps', 1);
    }
  }

  function PairStates(): (run: seq<Pool>)
    ensures |run| == 4
  {
    var loops, workers := [Loop([], [], None)], [Contending(false)];
    var r := Request(0, Function, 0, []);
    [Pool(Core(1, 0, 0, [], []), workers, map[], loops),
     Pool(Core(1, 0, 0, [RunSlow], [1]), workers, map[1 := r], loops),
     Pool(Core(1, 0, 0, [RunSlow], [1, 2]), workers, map[1 := r, 2 := r], loops),
     Pool(Core(1, 0, 0, [RunSlow, Exit], [1, 2]), workers, map[1 := r, 2 := r], loops)]
  }

  function PairSteps(): (steps: seq<Step>)
    ensures |steps| == 3
  {
    [Submit(1, 0, true, 0), Submit(2, 0, true, 0), Shutdown(0)]
  }

  lemma {:induction false} PairStep(i: nat)
    requires i < 3
    ensures IsStep(PairStates()[i], PairSteps()[i], PairStates()[i + 1])
  {
    var s, s' := PairStates()[i], PairStates()[i + 1];
    var r := Request(0, Function, 0, []);
    if i < 2 {
      assert s'.requests == s.requests[i + 1 := r] && s'.core.slowq == s.core.slowq + [i + 1];
    }
    if i == 1 { assert s.core.wq[0] == RunSlow; }
    if i != 1 { assert s'.core.wq == s.core.wq + [if i == 0 then RunSlow else Exit]; }
  }

  // ----- every request is delivered -----

  predicate Delivered(s: Pool, id: Item) { id in s.requests && s.requests[id].done != [] }

  /** On a queue of its own loop. */
  predicate AtLoop(s: Pool, id: Item) {
    id in s.requests && s.requests[id].loop < |s.loops| && InLoop(s.loops[s.requests[id].loop], id)
  }

  lemma {:induction false} HeldWitness(workers: seq<Worker>, n: nat, id: Item, called: bool) returns (w: nat)
    requires n <= |workers| && HeldUpto(workers, n, id, called) > 0
    ensures w < n && IsHeld(workers[w], id, called)
    decreases n
  {
    if IsHeld(workers[n - 1], id, called) {
      w := n - 1;
    } else {
      w := HeldWitness(workers, n - 1, id, called);
    }
  }

  /** A request that is not queued in the pool any more gets to its loop. */
  lemma {:induction false} HandedOn(run: seq<Pool>, steps: seq<Step>, id: Item)
    returns (run': seq<Pool>, steps': seq<Step>)
    requires IsRun(run, steps) && id in Last(run).requests && Queued(Last(run).core, id) == 0
    ensures IsRun(run', steps') && Continues(run, steps, run', steps')
    ensures Delivered(Last(run'), id) || AtLoop(Last(run'), id)
  {
    var s := Last(run);
    run', steps' := run, steps;
    RunConserves(run, steps, |run| - 1);
    assert ItemOk(s, id);
    var n, loop := CensusOf(s, id), s.requests[id].loop;
    if n.holding > 0 {
      var w := HeldWitness(s.workers, |s.workers|, id, false);
      CanCall(run, steps, w);
      var run1, steps1 := GoOn(run, steps, CallWork(w));
      run', steps' := Published(run1, steps1, w);
      ContinuesOn(run, steps, run1, steps1, run', steps');
    } else if n.finished > 0 {
      var w := HeldWitness(s.workers, |s.workers|, id, true);
      run', steps' := Published(run, steps, w);
    } else if n.cancelling > 0 {
      run', steps' := EndCancel(run, steps, loop);
    } else if n.looped > 0 {
      LoopedMeans(s.loops[loop], id);
    }
  }

  lemma {:induction false} LoopedMeans(l: Loop, id: Item)
    requires Looped(l, id) > 0
    ensures InLoop(l, id)
  {
    assert id in multiset(l.queue) || id in multiset(l.drained);
  }

  lemma {:induction false} Published(run: seq<Pool>, steps: seq<Step>, w: nat)
    returns (run': seq<Pool>, steps': seq<Step>)
    requires IsRun(run, steps) && w < |Last(run).workers| && Last(run).workers[w].Finished?
    ensures IsRun(run', steps') && Continues(run, steps, run', steps') && AtLoop(Last(run'), Last(run).workers[w].id)
  {
    CanCall(run, steps, w);
    run', steps' := GoOn(run, steps, Publish(w));
    var h := Last(run).workers[w];
    assert h.id in Last(run').loops[Last(run).requests[h.id].loop].queue;
  }

  /** The first of the drained requests is delivered. */
  lemma {:induction false} DeliverNext(run: seq<Pool>, steps: seq<Step>, loop: nat)
    returns (run': seq<Pool>, steps': seq<Step>)
    requires IsRun(run, steps) && loop < |Last(run).loops| && Last(run).loops[loop].drained != []
    requires Last(run).loops[loop].cancelling.None?
    ensures IsRun(run', steps') && Continues(run, steps, run', steps')
    ensures var s, s' := Last(run), Last(run');
      && |s'.loops| == |s.loops| && Delivered(s', s.loops[loop].drained[0])
      && s'.loops[loop] == s.loops[loop].(drained := s.loops[loop].drained[1..])
  {
    NeverStuck(run, steps, |run| - 1);
    run', steps' := GoOn(run, steps, Deliver(loop));
  }

  /** All drained requests are delivered, one by one. */
  lemma {:induction false} DeliverDrained(run: seq<Pool>, steps: seq<Step>, loop: nat)
    returns (run': seq<Pool>, steps': seq<Step>)
    requires IsRun(run, steps) && loop < |Last(run).loops| && Last(run).loops[loop].cancelling.None?
    ensures IsRun(run', steps') && Continues(run, steps, run', steps')
    ensures loop < |Last(run').loops| && Last(run').loops[loop] == Last(run).loops[loop].(drained := [])
    ensures forall id :: id in Last(run).loops[loop].drained ==> Delivered(Last(run'), id)
    decreases |Last(run).loops[loop].drained|
  {
    run', steps' := run, steps;
    var drained := Last(run).loops[loop].drained;
    if drained != [] {
      var run1, steps1 := DeliverNext(run, steps, loop);
      run', steps' := DeliverDrained(run1, steps1, loop);
      StaysSteady(run1, steps1, run', steps', |run'| - 1);
      ContinuesOn(run, steps, run1, steps1, run', steps');
      assert drained == [drained[0]] + drained[1..];
    }
  }

  /** What is on the queues of a loop is delivered. */
  lemma {:induction false} LoopDelivers(run: seq<Pool>, steps: seq<Step>, loop: nat)
    returns (run': seq<Pool>, steps': seq<Step>)
    requires IsRun(run, steps) && loop < |Last(run).loops|
    ensures IsRun(run', steps') && Continues(run, steps, run', steps')
    ensures forall id :: InLoop(Last(run).loops[loop], id) ==> Delivered(Last(run'), id)
  {
    var run1, steps1 := EndCancel(run, steps, loop);
    var run2, steps2 := DeliverDrained(run1, steps1, loop);
    ContinuesOn(run, steps, run1, steps1, run2, steps2);
    var run3, steps3 := GoOn(run2, steps2, Drain(loop));
    ContinuesOn(run, steps, run2, steps2, run3, steps3);
    run', steps' := DeliverDrained(run3, steps3, loop);
    ContinuesOn(run2, steps2, run3, steps3, run', steps');
    StaysSteady(run2, steps2, run', steps', |run'| - 1);
    ContinuesOn(run, steps, run3, steps3, run', steps');
    assert forall id :: InLoop(Last(run).loops[loop], id) ==>
      id in Last(run1).loops[loop].drained || id in Last(run3).loops[loop].drained;
  }

  /** A request whose pool is not being shut down is delivered. */
  lemma {:induction false} OneDelivered(run: seq<Pool>, steps: seq<Step>, id: Item)
    returns (run': seq<Pool>, steps': seq<Step>)
    requires IsRun(run, steps) && id in Last(run).requests && Exit !in Last(run).core.wq
    ensures IsRun(run', steps') && Continues(run, steps, run', steps') && Delivered(Last(run'), id)
  {
    var run1, steps1 := run, steps;
    if Queued(Last(run).core, id) > 0 {
      run1, steps1 := AttainableRuns(run, steps, id);
      RunConserves(run1, steps1, |run1| - 1);
      assert ItemOk(Last(run1), id);
    }
    var run2, steps2 := HandedOn(run1, steps1, id);
    ContinuesOn(run, steps, run1, steps1, run2, steps2);
    run', steps' := run2, steps2;
    if !Delivered(Last(run2), id) {
      run', steps' := LoopDelivers(run2, steps2, Last(run2).requests[id].loop);
      ContinuesOn(run, steps, run2, steps2, run', steps');
    }
  }

  function Outstanding(s: Pool): (r: set<Item>) { set id | id in s.requests && s.requests[id].done == [] }

  /** From every reachable state in which the exit message is not queued, the pool by itself can get to deliver every
      request. */
  lemma {:induction false} EveryRequestDelivered(run: seq<Pool>, steps: seq<Step>)
    returns (run': seq<Pool>, steps': seq<Step>)
    requires IsRun(run, steps) && Exit !in Last(run).core.wq
    ensures IsRun(run', steps') && Continues(run, steps, run', steps')
    ensures forall id :: id in Last(run).requests ==> Delivered(Last(run'), id)
    decreases |Outstanding(Last(run))|
  {
    run', steps' := run, steps;
    if id :| id in Outstanding(Last(run)) {
      var run1, steps1 := OneDelivered(run, steps, id);
      StaysSteady(run, steps, run1, steps1, |run1| - 1);
      Fewer(Last(run), Last(run1), id);
      run', steps' := EveryRequestDelivered(run1, steps1);
      ContinuesOn(run, steps, run1, steps1, run', steps');
    } else {
      assert forall id :: id in Last(run).requests ==> id !in Outstanding(Last(run));
    }
  }

  lemma {:induction false} Fewer(s: Pool, s': Pool, id: Item)
    requires Steady(s, s') && id in Outstanding(s) && Delivered(s', id)
    ensures |Outstanding(s')| < |Outstanding(s)|
  {
    var a, b := Outstanding(s'), Outstanding(s);
    assert a <= b - {id};
    Subset(a, b - {id});
  }

  lemma {:induction false} Subset(a: set<Item>, b: set<Item>)
    requires a <= b
    ensures |a| <= |b|
  {
    assert b == a + (b - a);
  }

  // ----- every worker leaves -----

  /** How many entries are in front of the exit message. */
  function Front(q: seq<Entry>): (n: nat)
    requires Exit in q
  {
    if q[0] == Exit then 0 else 1 + Front(q[1..])
  }

  lemma {:induction false} FrontAppend(q: seq<Entry>, e: Entry)
    requires Exit in q
    ensures Front(q + [e]) == Front(q)
    decreases |q|
  {
    if q[0] != Exit {
      assert (q + [e])[1..] == q[1..] + [e];
      FrontAppend(q[1..], e);
    }
  }

  /** A section leaves, or it brings the exit message forward. */
  lemma {:induction false} SectionForward(c: Core)
    requires QueuesOk(c) && Exit in c.wq
    ensures var (c', out) := Section(c);
      Exit in c'.wq && !out.Wait? && (out.Take? ==> Front(c'.wq) < Front(c.wq))
    decreases |c.wq|, if c.wq[0].RunSlow? then 1 else 0
  {
    if c.wq[0] == Exit {
      LeavesAtOnce(c);
    } else {
      HeadForward(c.wq);
      assert !MustWait(c);
      if Loops(c) {
        NextForward(c);
        SectionForward(Next(c));
      }
    }
  }

  /** The head is taken off, or put back behind the others. */
  lemma {:induction false} HeadForward(q: seq<Entry>)
    requires Exit in q && q[0] != Exit
    ensures var rest := q[1..];
      && Exit in rest && Front(rest) < Front(q)
      && Exit in rest + [RunSlow] && Front(rest + [RunSlow]) < Front(q)
  {
    var rest := q[1..];
    assert q == [q[0]] + rest;
    FrontAppend(rest, RunSlow);
  }

  lemma {:induction false} NextForward(c: Core)
    requires QueuesOk(c) && Loops(c) && Exit in c.wq
    ensures var d := Next(c);
      && Exit in d.wq && Front(d.wq) < Front(c.wq) && QueuesOk(d) && Section(c) == Section(d)
      && (|d.wq| < |c.wq| || (|d.wq| == |c.wq| && !d.wq[0].RunSlow?))
  {
    HeadForward(c.wq);
    NextOk(c, c.slowRunning);
    SectionNext(c);
    assert c.wq[1..] + [] == c.wq[1..];
  }

  lemma {:induction false} GoneAtMost(workers: seq<Worker>, n: nat)
    requires n <= |workers|
    ensures Upto(workers, n).gone <= n
    decreases n
  {
    if n > 0 { GoneAtMost(workers, n - 1); }
  }

  /** A worker on its way to the mutex leaves, or brings the exit message forward. */
  lemma {:induction false} EnterForward(s: Pool, w: nat, wake: nat)
    requires Scheduling(s) && Exit in s.core.wq && Enabled(s, Enter(w, wake))
    ensures var s' := Apply(s, Enter(w, wake));
      && Exit in s'.core.wq && |s'.workers| == |s.workers|
      && (|| Total(s'.workers).gone == Total(s.workers).gone + 1
          || (Total(s'.workers).gone == Total(s.workers).gone && Front(s'.core.wq) < Front(s.core.wq)))
  {
    var c := Entered(s, w);
    assert QueuesOk(c);
    SectionForward(c);
    var out := Section(c).1;
    var x := if out == Leave then Exited else Holding(out.id, out.slow);
    TotalUpdate(s.workers, w, x);
    SignalGone(s.workers[w := x], wake);
  }

  lemma {:induction false} SignalGone(workers: seq<Worker>, wake: nat)
    ensures Total(Signal(workers, wake)).gone == Total(workers).gone
  {
    if wake < |workers| && workers[wake] == Sleeping { TotalUpdate(workers, wake, Woken); }
  }

  /** Once the exit message is queued, the pool by itself can get all its workers to leave. */
  lemma {:induction false} EveryWorkerLeaves(run: seq<Pool>, steps: seq<Step>)
    returns (run': seq<Pool>, steps': seq<Step>)
    requires IsRun(run, steps) && Exit in Last(run).core.wq
    ensures IsRun(run', steps') && Continues(run, steps, run', steps')
    ensures forall w :: 0 <= w < |Last(run').workers| ==> Last(run').workers[w] == Exited
    decreases |Last(run).workers| - Total(Last(run).workers).gone, Front(Last(run).core.wq)
  {
    run', steps' := run, steps;
    if w :| 0 <= w < |Last(run).workers| && Last(run).workers[w] != Exited {
      var run1, steps1 := OneForward(run, steps, w);
      GoneAtMost(Last(run).workers, |Last(run).workers|);
      GoneAtMost(Last(run1).workers, |Last(run1).workers|);
      run', steps' := EveryWorkerLeaves(run1, steps1);
      ContinuesOn(run, steps, run1, steps1, run', steps');
    }
  }

  lemma {:induction false} OneForward(run: seq<Pool>, steps: seq<Step>, w: nat)
    returns (run': seq<Pool>, steps': seq<Step>)
    requires IsRun(run, steps) && Exit in Last(run).core.wq
    requires w < |Last(run).workers| && !Last(run).workers[w].Exited?
    ensures IsRun(run', steps') && Continues(run, steps, run', steps')
    ensures var s, s' := Last(run), Last(run');
      && Exit in s'.core.wq && |s'.workers| == |s.workers|
      && (|| Total(s'.workers).gone == Total(s.workers).gone + 1
          || (Total(s'.workers).gone == Total(s.workers).gone && Front(s'.core.wq) < Front(s.core.wq)))
  {
    var run1, steps1 := GetReady(run, steps, w);
    var s, s1 := Last(run), Last(run1);
    TotalUpdate(s.workers, w, s1.workers[w]);
    RunScheduling(run1, steps1, |run1| - 1);
    var wake := PickWake(s1.workers);
    EnterForward(s1, w, wake);
    run', steps' := GoOn(run1, steps1, Enter(w, wake));
    ContinuesOn(run, steps, run1, steps1, run', steps');
  }
}
