/** Slow work at shutdown: which pending slow requests are lost once the exit message is queued. */
module PoolShutdown {
  import opened Common
  import opened ThreadPool
  import opened PoolScheduling
  import opened PoolConservation

  /** The exit message stands in the queue with no slow-work message in front of it. */
  predicate Barred(q: seq<Entry>) {
    q != [] && (q[0] == Exit || (q[0] != RunSlow && Barred(q[1..])))
  }

  /** The same by position. */
  lemma {:induction false} BarredMeans(q: seq<Entry>)
    ensures Barred(q) <==> exists e :: 0 <= e < |q| && BarAt(q, e)
  {
    if Barred(q) { var e := BarPosition(q); }
    if exists e :: 0 <= e < |q| && BarAt(q, e) {
      var e :| 0 <= e < |q| && BarAt(q, e);
      BarHere(q, e);
    }
  }

  predicate BarAt(q: seq<Entry>, e: nat)
    requires e < |q|
  {
    q[e] == Exit && RunSlow !in q[..e]
  }

  lemma {:induction false} BarPosition(q: seq<Entry>) returns (e: nat)
    requires Barred(q)
    ensures e < |q| && BarAt(q, e)
    decreases |q|
  {
    if q[0] == Exit {
      e := 0;
    } else {
      e := BarPosition(q[1..]);
      assert q[..e + 1] == [q[0]] + q[1..][..e];
      e := e + 1;
    }
  }

  lemma {:induction false} BarHere(q: seq<Entry>, e: nat)
    requires e < |q| && BarAt(q, e)
    ensures Barred(q)
    decreases |q|
  {
    if e > 0 {
      assert q[..e] == [q[0]] + q[1..][..e - 1];
      BarHere(q[1..], e - 1);
    }
  }

  // ----- the bar stays -----

  lemma {:induction false} BarredAppend(q: seq<Entry>, e: Entry)
    requires Barred(q)
    ensures Barred(q + [e])
    decreases |q|
  {
    if q[0] != Exit {
      BarredAppend(q[1..], e);
      assert (q + [e])[1..] == q[1..] + [e];
    }
  }

  lemma {:induction false} BarredWithout(q: seq<Entry>, id: Item)
    requires Barred(q)
    ensures Barred(Without(q, Work(id)))
    decreases |q|
  {
    if q[0] != Exit && q[0] != Work(id) {
      BarredWithout(q[1..], id);
      var r := [q[0]] + Without(q[1..], Work(id));
      assert r[1..] == Without(q[1..], Work(id));
    }
  }

  /** A section entered behind the bar leaves, or takes an ordinary request: never slow work. */
  lemma {:induction false} BarredSection(c: Core)
    requires SlowOnce(c) && Barred(c.wq)
    ensures var r := Section(c);
      && Barred(r.0.wq) && r.0.slowq == c.slowq
      && (r.1 == Leave || (r.1.Take? && !r.1.slow && c.wq[0] == Work(r.1.id)))
  {
  }

  lemma {:induction false} BarredStep(s: Pool, step: Step)
    requires Enabled(s, step) && Barred(s.core.wq)
    ensures Barred(Apply(s, step).core.wq)
    ensures step.Enter? ==> Apply(s, step).core.slowq == s.core.slowq
  {
    match step
    case Enter(w, _) => BarredSection(Entered(s, w));
    case Submit(id, _, slow, _) => BarredAppend(s.core.wq, if slow then RunSlow else Work(id));
    case CancelBegin(id) => BarredWithout(s.core.wq, id);
    case Shutdown(_) => BarredAppend(s.core.wq, Exit);
    case _ =>
  }

  // ----- behind the bar no pending request is run -----

  /** A submitted request whose function has not been called and that only a slow section could take. */
  predicate Waiting(s: Pool, id: Item) {
    id in s.requests && s.requests[id].ran == 0 && Work(id) !in s.core.wq && Unheld(s.workers, id)
  }

  lemma {:induction false} PendingWaits(s: Pool, id: Item)
    requires Conserved(s) && id in s.core.slowq
    ensures Waiting(s, id)
  {
    assert ItemOk(s, id);
    assert multiset(s.core.slowq)[id] > 0;
    assert Work(id) in s.core.wq ==> multiset(s.core.wq)[Work(id)] > 0;
  }

  predicate Unheld(workers: seq<Worker>, id: Item) { Held(workers, id, false) == 0 && Held(workers, id, true) == 0 }

  lemma {:induction false} UnheldUpdate(workers: seq<Worker>, w: nat, x: Worker, id: Item)
    requires w < |workers| && Unheld(workers, id) && !IsHeld(x, id, false) && !IsHeld(x, id, true)
    ensures Unheld(workers[w := x], id)
  {
    HeldUpdate(workers, w, x, id, false);
    HeldUpdate(workers, w, x, id, true);
  }

  /** No worker holds it. */
  lemma {:induction false} NotHeld(workers: seq<Worker>, w: nat, id: Item)
    requires w < |workers| && Unheld(workers, id)
    ensures !IsHeld(workers[w], id, false) && !IsHeld(workers[w], id, true)
  {
    HeldUpdate(workers, w, workers[w], id, false);
    HeldUpdate(workers, w, workers[w], id, true);
  }

  lemma {:induction false} UnheldSignal(workers: seq<Worker>, wake: nat, id: Item)
    requires Unheld(workers, id)
    ensures Unheld(Signal(workers, wake), id)
  {
    SignalHeld(workers, wake, id, false);
    SignalHeld(workers, wake, id, true);
  }

  /** Entering, a worker takes another request or none. */
  lemma {:induction false} WaitingEnter(s: Pool, w: nat, wake: nat, id: Item)
    requires Enabled(s, Enter(w, wake)) && Waiting(s, id)
    requires var (c', out) := Section(Entered(s, w)); Work(id) !in c'.wq && (out.Take? ==> out.id != id)
    ensures Waiting(Apply(s, Enter(w, wake)), id)
  {
    var (c', out) := Section(Entered(s, w));
    var x := match out case Wait => Sleeping case Leave => Exited case Take(i, slow, _) => Holding(i, slow);
    UnheldUpdate(s.workers, w, x, id);
    UnheldSignal(s.workers[w := x], wake, id);
  }

  lemma {:induction false} WaitingBarred(s: Pool, w: nat, wake: nat, id: Item)
    requires Enabled(s, Enter(w, wake)) && Barred(s.core.wq) && Waiting(s, id)
    ensures Waiting(Apply(s, Enter(w, wake)), id)
  {
    var c := Entered(s, w);
    BarredSection(c);
    assert c.wq == s.core.wq == [c.wq[0]] + c.wq[1..];
    WaitingEnter(s, w, wake, id);
  }

  lemma {:induction false} WaitingWorker(s: Pool, step: Step, id: Item)
    requires Enabled(s, step) && Waiting(s, id) && (step.CallWork? || step.Publish? || step.Spurious?)
    ensures Waiting(Apply(s, step), id)
  {
    var h := s.workers[step.w];
    NotHeld(s.workers, step.w, id);
    var x := if step.CallWork? then Finished(h.id, h.slow) else if step.Publish? then Contending(h.slow) else Woken;
    UnheldUpdate(s.workers, step.w, x, id);
  }

  lemma {:induction false} WaitingStep(s: Pool, step: Step, id: Item)
    requires Enabled(s, step) && Waiting(s, id) && (step.Enter? ==> Barred(s.core.wq))
    ensures Waiting(Apply(s, step), id)
  {
    match step
    case Enter(w, wake) => WaitingBarred(s, w, wake, id);
    case Submit(_, _, _, wake) => UnheldSignal(s.workers, wake, id);
    case Shutdown(wake) => UnheldSignal(s.workers, wake, id);
    case CancelBegin(x) => WithoutOther(s.core.wq, Work(x), Work(id));
    case CancelEnd(_) =>
    case Drain(_) =>
    case Deliver(_) =>
    case _ => WaitingWorker(s, step, id);
  }

  lemma {:induction false} WithoutOther(q: seq<Entry>, x: Entry, y: Entry)
    requires y !in q
    ensures y !in Without(q, x)
  {
    assert y !in multiset(q);
    assert y in Without(q, x) ==> y in multiset(Without(q, x));
  }

  /** Once the exit message has no slow-work message in front of it, this stays so in every later state of every run, no
      section takes slow work any more, and the function of a request that was pending then is never called: if the
      request is reported at all, then as cancelled. */
  lemma {:induction false} PendingNeverRuns(run: seq<Pool>, steps: seq<Step>, i: nat, j: nat, id: Item)
    requires IsRun(run, steps) && i <= j < |run| && Barred(run[i].core.wq) && id in run[i].core.slowq
    ensures Barred(run[j].core.wq) && Waiting(run[j], id)
    ensures run[j].requests[id].done == [] || run[j].requests[id].done == [ECanceled]
    decreases j
  {
    if j == i {
      RunConserves(run, steps, i);
      PendingWaits(run[i], id);
    } else {
      PendingNeverRuns(run, steps, i, j - 1, id);
      assert IsStep(run[j - 1], steps[j - 1], run[j]);
      BarredStep(run[j - 1], steps[j - 1]);
      WaitingStep(run[j - 1], steps[j - 1], id);
    }
    DoneOnce(run, steps, j, id);
  }

  // ----- once the exit message is queued, only the first pending request can run -----

  /** Another pending request is in front of it. */
  predicate Behind(q: seq<Item>, id: Item) { q != [] && id in q[1..] }

  lemma {:induction false} RotatedBars(q: seq<Entry>)
    requires Exit in q && RunSlow !in q
    ensures Barred(q)
  {
    var e :| 0 <= e < |q| && q[e] == Exit;
    BarHere(q, e);
  }

  /** A section takes an ordinary request, or takes or passes over the first pending one and bars the others. */
  lemma {:induction false} SectionBehind(c: Core, id: Item)
    requires QueuesOk(c) && Exit in c.wq && Behind(c.slowq, id) && multiset(c.slowq)[id] == 1
    ensures var (c', out) := Section(c);
      && !out.Wait? && Exit in c'.wq && (Barred(c'.wq) || c'.slowq == c.slowq)
      && (out.Take? ==> if out.slow then out.id == c.slowq[0] != id else Work(out.id) in c.wq)
      && (Work(id) in c'.wq ==> Work(id) in c.wq)
  {
    var rest := c.wq[1..];
    assert c.wq == [c.wq[0]] + rest;
    assert c.slowq == [c.slowq[0]] + c.slowq[1..];
    if c.wq[0].RunSlow? {
      assert RunSlow !in rest by { assert RunSlow !in multiset(rest); }
      RotatedBars(rest);
      BarredAppend(rest, RunSlow);
      if c.slowRunning >= Threshold(c) {
        SectionPastSlow(c, rest);
      }
    }
  }

  /** At the limit of slow work the message goes behind the exit message. */
  lemma {:induction false} SectionPastSlow(c: Core, rest: seq<Entry>)
    requires SlowOnce(c) && c.wq == [RunSlow] + rest && Barred(rest + [RunSlow]) && c.slowRunning >= Threshold(c)
    requires !MustWait(c)
    ensures var (c', out) := Section(c);
      && Barred(c'.wq) && c'.slowq == c.slowq && Exit in c'.wq
      && (out == Leave || (out.Take? && !out.slow && Work(out.id) in c.wq))
      && forall x: Entry :: x in c'.wq ==> x in c.wq
  {
    var d := c.(wq := rest + [RunSlow]);
    assert multiset(d.wq) == multiset(c.wq);
    BarredSection(d);
    var e := BarPosition(Section(d).0.wq);
    assert d.wq[0] in c.wq;
  }

  /** Without a cancel it will never be taken. */
  predicate Doomed(s: Pool, id: Item) {
    Waiting(s, id) && (Barred(s.core.wq) || (Exit in s.core.wq && Behind(s.core.slowq, id)))
  }

  lemma {:induction false} DoomedEnter(s: Pool, w: nat, wake: nat, id: Item)
    requires Scheduling(s) && Conserved(s) && Enabled(s, Enter(w, wake)) && Doomed(s, id) && !Barred(s.core.wq)
    ensures Doomed(Apply(s, Enter(w, wake)), id)
  {
    var c := Entered(s, w);
    assert QueuesOk(c);
    OncePending(s, id);
    SectionBehind(c, id);
    WaitingEnter(s, w, wake, id);
  }

  lemma {:induction false} OncePending(s: Pool, id: Item)
    requires Conserved(s) && Behind(s.core.slowq, id)
    ensures multiset(s.core.slowq)[id] == 1
  {
    var q := s.core.slowq;
    assert q == [q[0]] + q[1..];
    assert multiset(q[1..])[id] > 0;
    assert ItemOk(s, id);
  }

  lemma {:induction false} DoomedStep(s: Pool, step: Step, id: Item)
    requires Scheduling(s) && Conserved(s) && Enabled(s, step) && Doomed(s, id) && !step.CancelBegin?
    ensures Doomed(Apply(s, step), id)
  {
    if Barred(s.core.wq) {
      BarredStep(s, step);
      WaitingStep(s, step, id);
    } else if step.Enter? {
      DoomedEnter(s, step.w, step.wake, id);
    } else {
      WaitingStep(s, step, id);
      if step.Submit? && step.slow {
        assert (s.core.slowq + [step.id])[1..] == s.core.slowq[1..] + [step.id];
      }
    }
  }

  /** Once the exit message is queued, a request that waits behind another pending one is never run, unless a request
      is cancelled: as soon as the first one is taken, the slow-work message goes behind the exit message. */
  lemma {:induction false} BehindNeverRuns(run: seq<Pool>, steps: seq<Step>, i: nat, j: nat, id: Item)
    requires IsRun(run, steps) && i <= j < |run| && Exit in run[i].core.wq && Behind(run[i].core.slowq, id)
    requires forall k :: i <= k < j ==> !steps[k].CancelBegin?
    ensures Doomed(run[j], id)
    decreases j
  {
    if j == i {
      RunConserves(run, steps, i);
      PendingWaits(run[i], id);
    } else {
      BehindNeverRuns(run, steps, i, j - 1, id);
      RunScheduling(run, steps, j - 1);
      RunConserves(run, steps, j - 1);
      assert IsStep(run[j - 1], steps[j - 1], run[j]);
      DoomedStep(run[j - 1], steps[j - 1], id);
    }
  }
}
