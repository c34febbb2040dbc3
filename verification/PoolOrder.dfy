/** Requests are taken up in the order in which they were submitted. */
module PoolOrder {
  import opened Common
  import opened ThreadPool
  import opened PoolScheduling
  import opened PoolConservation

  /** x stands in front of y. */
  ghost predicate Ahead<T(!new)>(q: seq<T>, x: T, y: T) {
    exists i, j :: 0 <= i < j < |q| && q[i] == x && q[j] == y
  }

  lemma {:induction false} AheadAppend<T(!new)>(q: seq<T>, e: T, x: T, y: T)
    ensures Ahead(q, x, y) ==> Ahead(q + [e], x, y)
    ensures x in q ==> Ahead(q + [e], x, e)
  {
    var r := q + [e];
    if Ahead(q, x, y) {
      var i, j :| 0 <= i < j < |q| && q[i] == x && q[j] == y;
      assert r[i] == x && r[j] == y;
    }
    if x in q {
      var i :| 0 <= i < |q| && q[i] == x;
      assert r[i] == x && r[|q|] == e;
    }
  }

  /** Taking off the head leaves the order, unless the head was x. */
  lemma {:induction false} AheadTail<T(!new)>(q: seq<T>, x: T, y: T)
    requires q != [] && q[0] != x && Ahead(q, x, y)
    ensures Ahead(q[1..], x, y)
  {
    var i, j :| 0 <= i < j < |q| && q[i] == x && q[j] == y;
    assert q[1..][i - 1] == x && q[1..][j - 1] == y;
  }

  lemma {:induction false} AheadWithout<T(!new)>(q: seq<T>, z: T, x: T, y: T)
    requires Ahead(q, x, y) && z != x && z != y
    ensures Ahead(Without(q, z), x, y)
    decreases |q|
  {
    var i, j :| 0 <= i < j < |q| && q[i] == x && q[j] == y;
    if q[0] == z {
      AheadTail(q, x, y);
    } else if q[0] == x {
      assert q[1..][j - 1] == y;
      WithoutKeeps(q[1..], z, y);
      AheadIn([x], Without(q[1..], z), x, y);
    } else {
      AheadTail(q, x, y);
      AheadWithout(q[1..], z, x, y);
      AheadIn([q[0]], Without(q[1..], z), x, y);
    }
  }

  lemma {:induction false} WithoutKeeps<T>(q: seq<T>, z: T, y: T)
    requires y in q && z != y
    ensures y in Without(q, z)
  {
    assert y in multiset(q);
    assert y in multiset(Without(q, z));
  }

  /** A section keeps the order of what stays in the queue. */
  lemma {:induction false} SectionAhead(c: Core, x: Entry, y: Entry)
    requires QueuesOk(c) && Ahead(c.wq, x, y) && x.Work? && multiset(c.wq)[x] == 1
    ensures x in Section(c).0.wq ==> Ahead(Section(c).0.wq, x, y)
    decreases |c.wq|, if c.wq != [] && c.wq[0].RunSlow? then 1 else 0
  {
    if !MustWait(c) && c.wq[0] == x {
      SplitHead(c);
      assert x !in c.wq[1..] by { assert x !in multiset(c.wq[1..]); }
    } else if !MustWait(c) && !c.wq[0].Exit? {
      AheadTail(c.wq, x, y);
      AheadAppend(c.wq[1..], RunSlow, x, y);
      SplitHead(c);
      if Loops(c) {
        NextOk(c, c.slowRunning);
        SectionNext(c);
        assert c.wq[1..] + [] == c.wq[1..];
        SectionAhead(Next(c), x, y);
      }
    }
  }

  /** Slow requests are taken off their queue from the front. */
  lemma {:induction false} SectionSlowAhead(c: Core, x: Item, y: Item)
    requires QueuesOk(c) && Ahead(c.slowq, x, y) && multiset(c.slowq)[x] == 1
    ensures x in Section(c).0.slowq ==> Ahead(Section(c).0.slowq, x, y)
    decreases |c.wq|, if c.wq != [] && c.wq[0].RunSlow? then 1 else 0
  {
    if Loops(c) {
      NextOk(c, c.slowRunning);
      SectionNext(c);
      SectionSlowAhead(Next(c), x, y);
    } else if !MustWait(c) && c.wq[0].RunSlow? {
      assert c.slowq == [c.slowq[0]] + c.slowq[1..];
      if c.slowq[0] == x {
        assert x !in c.slowq[1..] by { assert x !in multiset(c.slowq[1..]); }
      } else {
        AheadTail(c.slowq, x, y);
      }
    }
  }

  lemma {:induction false} QueuedOnce(s: Pool, id: Item)
    requires Conserved(s)
    ensures Work(id) in s.core.wq ==> multiset(s.core.wq)[Work(id)] == 1
    ensures id in s.core.slowq ==> multiset(s.core.slowq)[id] == 1
  {
    assert ItemOk(s, id);
    assert Work(id) in s.core.wq ==> multiset(s.core.wq)[Work(id)] > 0;
    assert id in s.core.slowq ==> multiset(s.core.slowq)[id] > 0;
  }

  /** The order of two requests on one of the global queues. */
  ghost predicate Waits(c: Core, slow: bool, a: Item, b: Item) {
    if slow then Ahead(c.slowq, a, b) else Ahead(c.wq, Work(a), Work(b))
  }

  predicate Queues(c: Core, slow: bool, a: Item) { if slow then a in c.slowq else Work(a) in c.wq }

  lemma {:induction false} WaitsQueues(c: Core, slow: bool, a: Item, b: Item)
    requires Waits(c, slow, a, b)
    ensures Queues(c, slow, a) && Queues(c, slow, b)
  {
  }

  lemma {:induction false} EnterOrder(s: Pool, w: nat, wake: nat, slow: bool, a: Item, b: Item)
    requires Scheduling(s) && Conserved(s) && Enabled(s, Enter(w, wake)) && Waits(s.core, slow, a, b)
    ensures var c := Apply(s, Enter(w, wake)).core; Queues(c, slow, a) ==> Waits(c, slow, a, b)
  {
    var c := Entered(s, w);
    WaitsQueues(s.core, slow, a, b);
    QueuedOnce(s, a);
    if slow { SectionSlowAhead(c, a, b); } else { SectionAhead(c, Work(a), Work(b)); }
  }

  lemma {:induction false} StepOrder(s: Pool, step: Step, slow: bool, a: Item, b: Item)
    requires Scheduling(s) && Conserved(s) && Enabled(s, step) && Waits(s.core, slow, a, b)
    requires step != CancelBegin(a) && step != CancelBegin(b)
    ensures var c := Apply(s, step).core; Queues(c, slow, a) ==> Waits(c, slow, a, b)
  {
    match step
    case Enter(w, wake) => EnterOrder(s, w, wake, slow, a, b);
    case Submit(id, _, isSlow, _) =>
      AheadAppend(s.core.slowq, id, a, b);
      AheadAppend(s.core.wq, if isSlow then RunSlow else Work(id), Work(a), Work(b));
    case CancelBegin(x) =>
      if slow { AheadWithout(s.core.slowq, x, a, b); } else { AheadWithout(s.core.wq, Work(x), Work(a), Work(b)); }
    case Shutdown(_) => AheadAppend(s.core.wq, Exit, Work(a), Work(b));
    case _ =>
  }

  /** A section puts no request on a queue. */
  lemma {:induction false} SectionAdds(c: Core, slow: bool, id: Item)
    requires QueuesOk(c) && Queues(Section(c).0, slow, id)
    ensures Queues(c, slow, id)
    decreases |c.wq|, if c.wq != [] && c.wq[0].RunSlow? then 1 else 0
  {
    if Loops(c) {
      NextOk(c, c.slowRunning);
      SectionNext(c);
      SectionAdds(Next(c), slow, id);
    }
  }

  /** A request that has left its queue does not come back. */
  lemma {:induction false} NotAgain(s: Pool, step: Step, slow: bool, id: Item)
    requires Scheduling(s) && Enabled(s, step) && id in s.requests && !Queues(s.core, slow, id)
    ensures !Queues(Apply(s, step).core, slow, id) && id in Apply(s, step).requests
  {
    match step
    case Enter(w, _) =>
      if Queues(Section(Entered(s, w)).0, slow, id) { SectionAdds(Entered(s, w), slow, id); }
    case CancelBegin(x) =>
      if slow { NotAdded(s.core.slowq, x, id); } else { NotAdded(s.core.wq, Work(x), Work(id)); }
    case _ =>
  }

  lemma {:induction false} NotAdded<T>(q: seq<T>, z: T, y: T)
    requires y !in q
    ensures y !in Without(q, z)
  {
    assert y !in multiset(q);
    assert y in Without(q, z) ==> y in multiset(Without(q, z));
  }

  lemma {:induction false} StepRequests(s: Pool, step: Step, id: Item)
    requires Enabled(s, step) && id in s.requests
    ensures id in Apply(s, step).requests
  {
  }

  lemma {:induction false} QueuedKnown(s: Pool, slow: bool, id: Item)
    requires Conserved(s) && Queues(s.core, slow, id)
    ensures id in s.requests
  {
    assert ItemOk(s, id);
    QueuedOnce(s, id);
  }

  /** First in, first out: of two requests on the same queue the one behind does not leave it before the one in front,
      in any run, unless one of them is cancelled. */
  lemma {:induction false} FirstInFirstOut(run: seq<Pool>, steps: seq<Step>, i: nat, j: nat, slow: bool, a: Item,
                                           b: Item)
    requires IsRun(run, steps) && i <= j < |run| && Waits(run[i].core, slow, a, b)
    requires forall k :: i <= k < j ==> steps[k] != CancelBegin(a) && steps[k] != CancelBegin(b)
    ensures Queues(run[j].core, slow, a) ==> Waits(run[j].core, slow, a, b)
    ensures !Queues(run[j].core, slow, b) ==> !Queues(run[j].core, slow, a)
    ensures a in run[j].requests
    decreases j
  {
    if j == i {
      RunConserves(run, steps, i);
      WaitsQueues(run[i].core, slow, a, b);
      QueuedKnown(run[i], slow, a);
    } else {
      var s, step := run[j - 1], steps[j - 1];
      FirstInFirstOut(run, steps, i, j - 1, slow, a, b);
      RunScheduling(run, steps, j - 1);
      RunConserves(run, steps, j - 1);
      assert IsStep(s, step, run[j]);
      StepRequests(s, step, a);
      if Queues(s.core, slow, a) { StepOrder(s, step, slow, a, b); } else { NotAgain(s, step, slow, a); }
      if Queues(run[j].core, slow, a) { WaitsQueues(run[j].core, slow, a, b); }
    }
  }

  /** A request that is submitted joins the end of its queue, behind all others; so does the exit message. */
  lemma {:induction false} JoinsBehind(s: Pool, id: Item, loop: nat, slow: bool, wake: nat, a: Item)
    requires Queues(s.core, slow, a)
    ensures Enabled(s, Submit(id, loop, slow, wake)) ==>
      Waits(Apply(s, Submit(id, loop, slow, wake)).core, slow, a, id)
    ensures Enabled(s, Shutdown(wake)) && !slow ==> Ahead(Apply(s, Shutdown(wake)).core.wq, Work(a), Exit)
  {
    if slow {
      AheadAppend(s.core.slowq, id, a, a);
    } else {
      AheadAppend(s.core.wq, Work(id), Work(a), Work(a));
      AheadAppend(s.core.wq, Exit, Work(a), Work(a));
    }
  }

  /** Slow work stands back: its message is queued behind everything else, when it is first announced and again each
      time that a section takes a slow request or, at the limit, passes it over. */
  lemma {:induction false} MessageBehind(s: Pool, id: Item, loop: nat, wake: nat, e: Entry)
    requires Enabled(s, Submit(id, loop, true, wake)) && RunSlow !in s.core.wq && e in s.core.wq
    ensures Ahead(Apply(s, Submit(id, loop, true, wake)).core.wq, e, RunSlow)
  {
    AheadAppend(s.core.wq, RunSlow, e, e);
  }

  lemma {:induction false} SlowStandsBack(c: Core, e: Entry)
    requires QueuesOk(c) && c.wq != [] && c.wq[0] == RunSlow && e in Section(c).0.wq && e != RunSlow
    requires RunSlow in Section(c).0.wq
    ensures Ahead(Section(c).0.wq, e, RunSlow)
  {
    var rest := c.wq[1..];
    SplitHead(c);
    assert RunSlow !in rest by { assert RunSlow !in multiset(rest); }
    if !MustWait(c) && c.slowRunning >= Threshold(c) {
      PassedOver(c, rest, e);
    } else if !MustWait(c) && c.slowq == [] {
      Dropped(c, rest);
    } else if !MustWait(c) {
      AheadAppend(rest, RunSlow, e, e);
    }
  }

  lemma {:induction false} PassedOver(c: Core, rest: seq<Entry>, e: Entry)
    requires QueuesOk(c) && c.wq == [RunSlow] + rest && RunSlow !in rest && !MustWait(c)
    requires c.slowRunning >= Threshold(c) && e in Section(c).0.wq && e != RunSlow
    ensures Ahead(Section(c).0.wq, e, RunSlow)
  {
    var d := c.(wq := rest + [RunSlow]);
    assert d.wq[0] == rest[0] && d.wq[1..] == rest[1..] + [RunSlow];
    assert multiset(d.wq) == multiset(c.wq);
    assert Section(c) == Section(d);
    AheadAppend(rest, RunSlow, e, e);
    AheadAppend(rest[1..], RunSlow, e, e);
  }

  lemma {:induction false} Dropped(c: Core, rest: seq<Entry>)
    requires QueuesOk(c) && c.wq == [RunSlow] + rest && RunSlow !in rest && !MustWait(c)
    requires c.slowRunning < Threshold(c) && c.slowq == []
    ensures RunSlow !in Section(c).0.wq
  {
    var d := c.(wq := rest);
    assert multiset(d.wq)[RunSlow] == 0;
    assert Section(c) == Section(d);
  }

  // ----- the queues of a loop -----

  /** What waits for delivery, the next first. */
  function Line(l: Loop): (q: seq<Item>) { l.drained + l.queue }

  lemma {:induction false} AheadIn<T(!new)>(d: seq<T>, e: seq<T>, x: T, y: T)
    requires Ahead(d, x, y) || Ahead(e, x, y) || (x in d && y in e)
    ensures Ahead(d + e, x, y)
  {
    var r := d + e;
    if Ahead(d, x, y) {
      var i, j :| 0 <= i < j < |d| && d[i] == x && d[j] == y;
      assert r[i] == x && r[j] == y;
    } else if Ahead(e, x, y) {
      var i, j :| 0 <= i < j < |e| && e[i] == x && e[j] == y;
      assert r[|d| + i] == x && r[|d| + j] == y;
    } else {
      var i :| 0 <= i < |d| && d[i] == x;
      var j :| 0 <= j < |e| && e[j] == y;
      assert r[i] == x && r[|d| + j] == y;
    }
  }

  lemma {:induction false} AheadSplit<T(!new)>(d: seq<T>, e: seq<T>, x: T, y: T)
    requires Ahead(d + e, x, y)
    ensures Ahead(d, x, y) || Ahead(e, x, y) || (x in d && y in e)
  {
    var q, n := d + e, |d|;
    var i, j :| 0 <= i < j < |q| && q[i] == x && q[j] == y;
    if j < n {
      assert d[i] == x && d[j] == y;
    } else if i >= n {
      assert e[i - n] == x && e[j - n] == y;
    } else {
      assert d[i] == x && e[j - n] == y;
    }
  }

  lemma {:induction false} LineWithout(l: Loop, x: Item, a: Item, b: Item)
    requires Ahead(Line(l), a, b) && x != a && x != b
    ensures Ahead(Without(l.drained, x) + Without(l.queue, x), a, b)
  {
    AheadSplit(l.drained, l.queue, a, b);
    if Ahead(l.drained, a, b) {
      AheadWithout(l.drained, x, a, b);
    } else if Ahead(l.queue, a, b) {
      AheadWithout(l.queue, x, a, b);
    } else {
      WithoutKeeps(l.drained, x, a);
      WithoutKeeps(l.queue, x, b);
    }
    AheadIn(Without(l.drained, x), Without(l.queue, x), a, b);
  }

  /** A delivery takes the first of the line, and what finishes or is cancelled joins its end: no step changes the order
      of two requests that both wait, unless it cancels one of them. */
  lemma {:induction false} LineOrder(s: Pool, step: Step, l: nat, a: Item, b: Item)
    requires Enabled(s, step) && l < |s.loops| && Ahead(Line(s.loops[l]), a, b)
    requires step != CancelBegin(a) && step != CancelBegin(b)
    ensures l < |Apply(s, step).loops|
    ensures !(step == Deliver(l) && Line(s.loops[l])[0] == a) ==> Ahead(Line(Apply(s, step).loops[l]), a, b)
  {
    match step
    case Publish(w) => PublishLine(s, w, l, a, b);
    case CancelBegin(x) => CancelLine(s, x, l, a, b);
    case CancelEnd(m) => LoopLine(s, step, m, l, a, b);
    case Drain(m) => LoopLine(s, step, m, l, a, b);
    case Deliver(m) => LoopLine(s, step, m, l, a, b);
    case _ => SameLoops(s, step);
  }

  lemma {:induction false} SameLoops(s: Pool, step: Step)
    requires Enabled(s, step) && !step.Publish? && !step.CancelBegin? && !step.CancelEnd?
    requires !step.Drain? && !step.Deliver?
    ensures Apply(s, step).loops == s.loops
  {
  }

  lemma {:induction false} CancelLine(s: Pool, x: Item, l: nat, a: Item, b: Item)
    requires Enabled(s, CancelBegin(x)) && l < |s.loops| && Ahead(Line(s.loops[l]), a, b) && x != a && x != b
    ensures l < |Apply(s, CancelBegin(x)).loops| && Ahead(Line(Apply(s, CancelBegin(x)).loops[l]), a, b)
  {
    if s.requests[x].loop == l { LineWithout(s.loops[l], x, a, b); }
  }

  lemma {:induction false} LoopLine(s: Pool, step: Step, m: nat, l: nat, a: Item, b: Item)
    requires Enabled(s, step) && l < |s.loops| && Ahead(Line(s.loops[l]), a, b)
    requires step == CancelEnd(m) || step == Drain(m) || step == Deliver(m)
    ensures l < |Apply(s, step).loops|
    ensures !(step == Deliver(l) && Line(s.loops[l])[0] == a) ==> Ahead(Line(Apply(s, step).loops[l]), a, b)
  {
    var was := s.loops[l];
    if m == l && step.CancelEnd? {
      LineJoins(was, was.cancelling.value, a, b);
    } else if m == l && step.Drain? {
      assert Line(Loop([], was.queue, None)) == Line(was);
    } else if m == l {
      LineMoves(was, a, b);
    }
  }

  lemma {:induction false} PublishLine(s: Pool, w: nat, l: nat, a: Item, b: Item)
    requires Enabled(s, Publish(w)) && l < |s.loops| && Ahead(Line(s.loops[l]), a, b)
    ensures l < |Apply(s, Publish(w)).loops| && Ahead(Line(Apply(s, Publish(w)).loops[l]), a, b)
  {
    if s.requests[s.workers[w].id].loop == l { LineJoins(s.loops[l], s.workers[w].id, a, b); }
  }

  lemma {:induction false} LineJoins(l: Loop, id: Item, a: Item, b: Item)
    requires Ahead(Line(l), a, b)
    ensures Ahead(l.drained + (l.queue + [id]), a, b)
  {
    AheadAppend(Line(l), id, a, b);
    Regroup(l.drained, l.queue, [id]);
  }

  lemma {:induction false} LineMoves(l: Loop, a: Item, b: Item)
    requires Ahead(Line(l), a, b) && l.drained != []
    ensures Line(l)[0] != a ==> Ahead(l.drained[1..] + l.queue, a, b)
  {
    assert Line(l)[1..] == l.drained[1..] + l.queue;
    if Line(l)[0] != a { AheadTail(Line(l), a, b); }
  }
}
