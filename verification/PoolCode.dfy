/** The critical sections of threadpool.c over linked queues. Each is the corresponding step of the
    state machine in ThreadPool. */
module PoolCode {
  import opened Queue
  import opened ThreadPool

  /** What a queue link is embedded in: a request, one of the two messages, or a queue head. */
  datatype Payload = Job(id: Item, work: WorkField) | SlowMessage | ExitMessage | Anchor

  type Node = Link<Payload>

  /** Heads are never queued. */
  function EntryOf(p: Payload): (e: Entry) {
    match p
    case Job(id, _) => Work(id)
    case SlowMessage => RunSlow
    case ExitMessage => Exit
    case Anchor => Exit
  }

  function Entries(xs: seq<Node>): (r: seq<Entry>)
    reads xs
    ensures |r| == |xs| && forall i :: 0 <= i < |xs| ==> r[i] == EntryOf(xs[i].data)
  {
    seq(|xs|, i requires 0 <= i < |xs| reads xs => EntryOf(xs[i].data))
  }

  function IdOf(p: Payload): (id: Item) { if p.Job? then p.id else 0 }

  function Ids(xs: seq<Node>): (r: seq<Item>)
    reads xs
    ensures |r| == |xs| && forall i :: 0 <= i < |xs| ==> r[i] == IdOf(xs[i].data)
  {
    seq(|xs|, i requires 0 <= i < |xs| reads xs => IdOf(xs[i].data))
  }

  lemma {:induction false} EntriesTail(xs: seq<Node>)
    requires xs != []
    ensures Entries(xs[1..]) == Entries(xs)[1..]
  {
  }

  lemma {:induction false} EntriesSnoc(xs: seq<Node>, q: Node)
    ensures Entries(xs + [q]) == Entries(xs) + [EntryOf(q.data)]
  {
  }

  lemma {:induction false} EntriesAppend(a: seq<Node>, b: seq<Node>)
    ensures Entries(a + b) == Entries(a) + Entries(b)
  {
  }

  lemma {:induction false} IdsAppend(a: seq<Node>, b: seq<Node>)
    ensures Ids(a + b) == Ids(a) + Ids(b)
  {
  }

  lemma {:induction false} IdsTail(xs: seq<Node>)
    requires xs != []
    ensures Ids(xs[1..]) == Ids(xs)[1..]
  {
  }

  lemma {:induction false} IdsSnoc(xs: seq<Node>, q: Node)
    ensures Ids(xs + [q]) == Ids(xs) + [IdOf(q.data)]
  {
  }

  /** The state of a queue is determined by the payloads of its nodes. */
  lemma {:induction false} ViewOf(xs: seq<Node>, es: seq<Entry>, ys: seq<Node>, ids: seq<Item>)
    requires |es| == |xs| && forall i :: 0 <= i < |xs| ==> EntryOf(xs[i].data) == es[i]
    requires |ids| == |ys| && forall i :: 0 <= i < |ys| ==> IdOf(ys[i].data) == ids[i]
    ensures Entries(xs) == es && Ids(ys) == ids
  {
  }

  lemma {:induction false} WithoutAt<T>(q: seq<T>, i: nat, x: T)
    requires i < |q| && q[i] == x && x !in q[..i]
    ensures Without(q, x) == q[..i] + q[i + 1..]
    decreases i
  {
    if i > 0 {
      assert q[0] == q[..i][0];
      assert q[..i] == [q[0]] + q[1..][..i - 1];
      WithoutAt(q[1..], i - 1, x);
    }
  }

  /** CancelBegin on the global queues. */
  function WithoutRequest(c: Core, id: Item): (d: Core) {
    c.(wq := Without(c.wq, Work(id)), slowq := Without(c.slowq, id))
  }

  lemma {:induction false} CutEntries(xs: seq<Node>, w: Node)
    requires w.data.Job? && forall x :: x in xs ==> x == w || !x.data.Job? || x.data.id != w.data.id
    ensures Entries(Cut(xs, w)) == Without(Entries(xs), Work(w.data.id))
  {
    var es := Entries(xs);
    if w in xs {
      var i := Position(xs, w);
      assert Work(w.data.id) !in es[..i] by {
        assert forall k :: 0 <= k < i ==> es[..i][k] == EntryOf(xs[k].data) && xs[k] == xs[..i][k];
      }
      WithoutAt(es, i, Work(w.data.id));
      EntriesAppend(xs[..i], xs[i + 1..]);
      assert Entries(xs[..i]) == es[..i] && Entries(xs[i + 1..]) == es[i + 1..];
    } else {
      WithoutNone(es, Work(w.data.id));
    }
  }

  lemma {:induction false} CutIds(xs: seq<Node>, w: Node)
    requires w.data.Job? && forall x :: x in xs ==> x == w || (x.data.Job? && x.data.id != w.data.id)
    ensures Ids(Cut(xs, w)) == Without(Ids(xs), w.data.id)
  {
    var ids := Ids(xs);
    if w in xs {
      var i := Position(xs, w);
      assert w.data.id !in ids[..i] by {
        assert forall k :: 0 <= k < i ==> ids[..i][k] == IdOf(xs[k].data) && xs[k] == xs[..i][k];
      }
      WithoutAt(ids, i, w.data.id);
      assert Ids(Cut(xs, w)) == ids[..i] + ids[i + 1..] by {
        IdsAppend(xs[..i], xs[i + 1..]);
        assert Ids(xs[..i]) == ids[..i] && Ids(xs[i + 1..]) == ids[i + 1..];
      }
    } else {
      WithoutNone(ids, w.data.id);
    }
  }

  class Globals {
    const nthreads: nat
    var idle: int
    var slowRunning: int
    const wq: Node
    const slowq: Node
    const runSlow: Node
    const exitMessage: Node
    ghost var work: seq<Node>
    ghost var slow: seq<Node>

    /** The queues hold xs and ys and do not touch; the slow message is queued or marked as not. */
    ghost predicate Sound(xs: seq<Node>, ys: seq<Node>)
      reads wq, slowq, runSlow, exitMessage, xs, ys
    {
      && List(wq, xs) && List(slowq, ys) && Apart([wq] + xs, [slowq] + ys)
      && runSlow != wq && runSlow !in [slowq] + ys
      && (runSlow !in xs ==> List(runSlow, []))
      && Payloads(xs, ys)
    }

    /** Only the two messages are not requests. */
    ghost predicate Payloads(xs: seq<Node>, ys: seq<Node>)
      reads runSlow, exitMessage, xs, ys
    {
      && runSlow.data == SlowMessage && exitMessage.data == ExitMessage
      && (forall x :: x in xs ==> x.data.Job? || x == runSlow || x == exitMessage)
      && (forall x :: x in ys ==> x.data.Job?)
    }

    /** Unfolds only where Sound is named. */
    ghost predicate Valid()
      reads this`work, this`slow, wq, slowq, runSlow, exitMessage, work, slow
    {
      forall xs, ys :: xs == work && ys == slow ==> Sound(xs, ys)
    }

    /** The links that a section may write. */
    ghost function Nodes(): (r: set<Node>)
      reads this`work, this`slow
    {
      {wq, slowq, runSlow} + (set x | x in work) + (set x | x in slow)
    }

    ghost function View(): (c: Core)
      reads this, work, slow
    {
      Core(nthreads, idle, slowRunning, Entries(work), Ids(slow))
    }

    /** init_threads: empty queues. */
    constructor (n: nat)
      ensures Valid() && View() == Core(n, 0, 0, [], [])
      ensures fresh({wq, slowq, runSlow, exitMessage})
    {
      nthreads, idle, slowRunning := n, 0, 0;
      var a := new Link(Anchor);
      var b := new Link(Anchor);
      var m := new Link(SlowMessage);
      var e := new Link(ExitMessage);
      MakeEmpty(a);
      MakeEmpty(b);
      MakeEmpty(m);
      wq, slowq, runSlow, exitMessage := a, b, m, e;
      work, slow := [], [];
      new;
      assert Sound(work, slow);
    }

    /** Take the head of the global queue and mark it as not queued. */
    method DetachWork() returns (q: Node)
      requires Valid() && work != []
      modifies this`work, wq, work
      ensures Valid() && q == old(work)[0] && work == old(work)[1..] && List(q, [])
      ensures q != wq && q !in work && q !in [slowq] + slow && (q.data.Job? || q == runSlow || q == exitMessage)
      ensures forall x :: x in old(work) || x in old(slow) ==> x.data == old(x.data)
    {
      assert Sound(work, slow);
      ghost var others := [slowq] + slow;
      assert Ring(wq, work);
      Inner(wq, work);
      EmptyMeans(wq, work);
      Second(wq, work);
      assert forall x :: x in [wq] + work ==> x !in others;
      assert wq in [wq] + work && wq.next in [wq] + work && wq.next.next in [wq] + work;
      q := TakeFirst(wq, work);
      assert List(slowq, slow);
      work := work[1..];
      MakeEmpty(q);
      assert Sound(work, slow);
    }

    /** Append to the global queue. */
    method AttachWork(q: Node)
      requires Valid() && q != wq && q !in work && q !in [slowq] + slow
      requires q.data.Job? || q == runSlow || q == exitMessage
      modifies this`work, wq, work, q
      ensures Valid() && work == old(work) + [q] && q.data == old(q.data)
      ensures forall x :: x in old(work) || x in old(slow) ==> x.data == old(x.data)
    {
      assert Sound(work, slow);
      ghost var others := [slowq] + slow;
      EmptyMeans(wq, work);
      assert forall x :: x in [wq] + work ==> x !in others;
      assert wq in [wq] + work && wq.prev in [wq] + work;
      InsertTail(wq, q, work);
      assert List(slowq, slow);
      work := work + [q];
      assert Sound(work, slow);
    }

    /** Take the head of the slow queue. */
    method DetachSlow() returns (q: Node)
      requires Valid() && slow != []
      modifies this`slow, slowq, slow
      ensures Valid() && q == old(slow)[0] && slow == old(slow)[1..] && List(q, []) && q.data.Job?
      ensures q !in [wq] + work && q !in [slowq] + slow && q != runSlow
      ensures forall x :: x in old(work) || x in old(slow) ==> x.data == old(x.data)
    {
      assert Sound(work, slow);
      ghost var others := [wq] + work;
      assert Ring(slowq, slow);
      Inner(slowq, slow);
      EmptyMeans(slowq, slow);
      Second(slowq, slow);
      assert forall x :: x in [slowq] + slow ==> x !in others;
      assert slowq in [slowq] + slow && slowq.next in [slowq] + slow && slowq.next.next in [slowq] + slow;
      q := TakeFirst(slowq, slow);
      assert List(wq, work);
      slow := slow[1..];
      MakeEmpty(q);
      assert Sound(work, slow);
    }

    method AttachSlow(q: Node)
      requires Valid() && q.data.Job? && q !in [wq] + work && q !in [slowq] + slow
      modifies this`slow, slowq, slow, q
      ensures Valid() && slow == old(slow) + [q] && q.data == old(q.data)
      ensures forall x :: x in old(work) || x in old(slow) ==> x.data == old(x.data)
    {
      assert Sound(work, slow);
      ghost var others := [wq] + work;
      EmptyMeans(slowq, slow);
      assert forall x :: x in [slowq] + slow ==> x !in others;
      assert slowq in [slowq] + slow && slowq.prev in [slowq] + slow;
      InsertTail(slowq, q, slow);
      assert List(wq, work);
      slow := slow + [q];
      assert Sound(work, slow);
    }

    /** The same four operations, as seen in the state. */
    method PopWork() returns (q: Node)
      requires Valid() && work != []
      modifies this`work, wq, work
      ensures Valid() && q == old(work)[0] && work == old(work)[1..] && List(q, [])
      ensures q != wq && q !in work && q !in [slowq] + slow && (q.data.Job? || q == runSlow || q == exitMessage)
      ensures q.data == old(work[0].data) && View() == old(View().(wq := View().wq[1..]))
    {
      ghost var xs, ys := work, slow;
      ghost var es, ids := Entries(xs), Ids(ys);
      q := DetachWork();
      ViewOf(xs, es, ys, ids);
      EntriesTail(xs);
    }

    method PushWork(q: Node)
      requires Valid() && q != wq && q !in work && q !in [slowq] + slow
      requires q.data.Job? || q == runSlow || q == exitMessage
      modifies this`work, wq, work, q
      ensures Valid() && work == old(work) + [q]
      ensures q.data == old(q.data) && View() == old(View().(wq := View().wq + [EntryOf(q.data)]))
    {
      ghost var xs, ys := work, slow;
      ghost var es, ids := Entries(xs), Ids(ys);
      AttachWork(q);
      ViewOf(xs, es, ys, ids);
      EntriesSnoc(xs, q);
    }

    method PopSlow() returns (q: Node)
      requires Valid() && slow != []
      modifies this`slow, slowq, slow
      ensures Valid() && q == old(slow)[0] && slow == old(slow)[1..] && List(q, []) && q.data.Job?
      ensures q !in [wq] + work && q !in [slowq] + slow && q != runSlow
      ensures q.data == old(slow[0].data) && View() == old(View().(slowq := View().slowq[1..]))
    {
      ghost var xs, ys := work, slow;
      ghost var es, ids := Entries(xs), Ids(ys);
      q := DetachSlow();
      ViewOf(xs, es, ys, ids);
      IdsTail(ys);
    }

    method PushSlow(q: Node)
      requires Valid() && q.data.Job? && q !in [wq] + work && q !in [slowq] + slow
      modifies this`slow, slowq, slow, q
      ensures Valid() && slow == old(slow) + [q]
      ensures q.data == old(q.data) && View() == old(View().(slowq := View().slowq + [q.data.id]))
    {
      ghost var xs, ys := work, slow;
      ghost var es, ids := Entries(xs), Ids(ys);
      AttachSlow(q);
      ViewOf(xs, es, ys, ids);
      IdsSnoc(ys, q);
    }

    /** The slow message is a single node, so it is queued at most once. */
    lemma {:induction false} SlowMessageOnce(xs: seq<Node>)
      requires Payloads(work, slow) && Distinct(xs) && forall x :: x in xs ==> x in work
      ensures multiset(Entries(xs))[RunSlow] == if runSlow in xs then 1 else 0
      decreases |xs|
    {
      if xs != [] {
        var n := |xs| - 1;
        assert xs == xs[..n] + [xs[n]];
        DistinctAppend(xs[..n], [xs[n]]);
        SlowMessageOnce(xs[..n]);
        EntriesSnoc(xs[..n], xs[n]);
        assert xs[n] in work;
      }
    }

    lemma {:induction false} ValidSlowOnce()
      requires Valid()
      ensures SlowOnce(View())
      ensures RunSlow in View().wq <==> runSlow in work
    {
      assert Sound(work, slow);
      assert Ring(wq, work);
      Inner(wq, work);
      SlowMessageOnce(work);
    }

    /** The test of the worker's inner loop. */
    method MustSleep() returns (b: bool)
      requires Valid()
      ensures b == MustWait(View())
    {
      assert Sound(work, slow);
      EmptyMeans(wq, work);
      ValidSlowOnce();
      if work != [] && work[0] == runSlow { Second(wq, work); }
      assert Ring(wq, work);
      Inner(wq, work);
      b := wq.next == wq || (wq.next == runSlow && runSlow.next == wq && slowRunning >= (nthreads + 1) / 2);
    }

    ghost predicate SlowMessageFree()
      reads this`work, this`slow, runSlow
    {
      runSlow != wq && runSlow !in work && runSlow !in [slowq] + slow && runSlow.data == SlowMessage
    }

    /** If there is more slow work, schedule it to be run as well. */
    method Reschedule() returns (signal: bool)
      requires Valid() && SlowMessageFree()
      modifies this`work, wq, work, runSlow
      ensures Valid()
      ensures work == old(work) + (if slow != [] then [runSlow] else [])
      ensures View() == old(View().(wq := View().wq + if slow != [] then [RunSlow] else []))
      ensures signal == (slow != [] && idle > 0)
    {
      signal := false;
      assert List(slowq, slow) by { assert Sound(work, slow); }
      EmptyMeans(slowq, slow);
      if slowq.next != slowq {
        PushWork(runSlow);
        signal := idle > 0;
      } else {
        assert View().wq + [] == View().wq;
      }
    }

    /** The slow message has just been taken off the queue: take the first slow request. */
    method TakeSlow() returns (q: Node, signal: bool)
      requires Valid() && slow != [] && SlowMessageFree()
      modifies this, slowq, slow, wq, work, runSlow
      ensures Valid() && q.data == old(slow[0].data) && q.data.Job? && List(q, [])
      ensures q !in work && q !in slow
      ensures forall x :: x in work || x in slow ==> x in old(work) || x in old(slow) || x == runSlow
      ensures var c := old(View());
        var more := |c.slowq| > 1;
        && View() == c.(slowRunning := c.slowRunning + 1, slowq := c.slowq[1..],
                        wq := c.wq + if more then [RunSlow] else [])
        && signal == (more && c.idle > 0)
    {
      q := PopSlow();
      slowRunning := slowRunning + 1;
      signal := Reschedule();
    }

    /** The slow message is at the head: put it back behind other work, drop it, or run slow work. */
    method TurnSlow() returns (again: bool, out: Outcome, q: Node)
      requires Valid() && work != [] && work[0] == runSlow
      modifies this, wq, slowq, runSlow, work, slow
      ensures Valid() && AfterSlow(old(View()), View(), again, out)
      ensures !again ==> out.Take? && Taken(q, out.id)
      ensures again ==> out == Wait
      ensures forall x :: x in work || x in slow ==> x in old(work) || x in old(slow)
    {
      assert runSlow.data == SlowMessage by { assert Sound(work, slow); }
      q := PopWork();
      again, out := true, Wait;
      if slowRunning >= (nthreads + 1) / 2 {
        PushWork(q);
      } else {
        assert List(slowq, slow) by { assert Sound(work, slow); }
        EmptyMeans(slowq, slow);
        if slowq.next != slowq {
          again := false;
          var signal;
          q, signal := TakeSlow();
          out := Take(q.data.id, true, signal);
        }
      }
    }

    /** One pass through the worker's loop, behind its wait. */
    method Turn() returns (again: bool, out: Outcome, q: Node)
      requires Valid() && SlowOnce(View()) && !MustWait(View())
      modifies this, Nodes()
      ensures Valid() && Turned(old(View()), View(), again, out)
      ensures out.Take? ==> Taken(q, out.id)
      ensures Nodes() <= old(Nodes())
    {
      assert Sound(work, slow);
      EmptyMeans(wq, work);
      q := wq.next;
      again, out := false, Leave;
      ghost var c := View();
      if q == exitMessage {
        assert c.wq[0] == Exit;
        ExitAtHead(c);
        return;
      }
      if q == runSlow {
        assert c.wq[0] == RunSlow;
        again, out, q := TurnSlow();
        SlowAtHead(c, View(), again, out);
      } else {
        q := TurnWork();
        out := Take(q.data.id, false, false);
      }
    }

    /** A request is at the head: take it. */
    method TurnWork() returns (q: Node)
      requires Valid() && SlowOnce(View()) && work != [] && work[0] != exitMessage && work[0] != runSlow
      modifies this, Nodes()
      ensures Valid() && Taken(q, IdOf(q.data)) && Nodes() <= old(Nodes())
      ensures Turned(old(View()), View(), false, Take(IdOf(q.data), false, false))
    {
      ghost var c := View();
      assert work[0].data.Job? by { assert Sound(work, slow); }
      q := PopWork();
      WorkAtHead(c, View(), q.data.id);
    }

    /** One pass with the wait: up to uv_cond_wait if the worker must sleep. */
    method Pass() returns (again: bool, out: Outcome, q: Node)
      requires Valid() && SlowOnce(View())
      modifies this, Nodes()
      ensures Valid() && Turned(old(View()), View(), again, out)
      ensures Nodes() <= old(Nodes()) && (out.Take? ==> Taken(q, out.id))
    {
      var sleep := MustSleep();
      if sleep {
        idle := idle + 1;
        again, out, q := false, Wait, wq;
      } else {
        again, out, q := Turn();
      }
    }

    /** worker, from the test of the wait condition to the next release of the mutex: the new state
        and the outcome are those of the state machine, and a taken request is marked unqueued. */
    method RunSection() returns (out: Outcome, q: Node)
      requires Valid()
      modifies this, Nodes()
      ensures Valid() && old(SlowOnce(View())) && (View(), out) == Section(old(View()))
      ensures Nodes() <= old(Nodes()) && (out.Take? ==> Taken(q, out.id))
    {
      ValidSlowOnce();
      q := wq;
      ghost var goal := Section(View());
      while true
        invariant Valid() && SlowOnce(View()) && Section(View()) == goal
        invariant Nodes() <= old(Nodes())
        decreases Rank(View())
      {
        var again;
        again, out, q := Pass();
        if !again {
          return;
        }
      }
    }

    /** QUEUE_EMPTY of the slow message: it is not queued. */
    method SlowMessageQueued() returns (b: bool)
      requires Valid()
      ensures b == (runSlow in work) == (RunSlow in View().wq)
    {
      ValidSlowOnce();
      assert Sound(work, slow);
      if runSlow in work {
        Queued(wq, work, runSlow);
      } else {
        EmptyMeans(runSlow, []);
      }
      b := runSlow.next != runSlow;
    }

    /** post, for a request or for the exit message: the new state, and whether to signal. */
    method PostWork(q: Node, isSlow: bool) returns (signal: bool)
      requires Valid() && q !in [wq] + work && q !in [slowq] + slow && q != runSlow
      requires q.data.Job? || (q == exitMessage && !isSlow)
      modifies this, Nodes(), q
      ensures Valid()
      ensures (View(), signal) ==
        old(if q == exitMessage then Append(View(), Exit) else Post(View(), IdOf(q.data), isSlow))
    {
      assert runSlow.data == SlowMessage && exitMessage.data == ExitMessage by {
        assert Sound(work, slow);
      }
      assert runSlow != wq && runSlow !in [slowq] + slow by {
        assert Sound(work, slow);
      }
      if isSlow {
        PushSlow(q);
        var queued := SlowMessageQueued();
        if queued {
          return false;
        }
        PushWork(runSlow);
      } else {
        PushWork(q);
      }
      signal := idle > 0;
    }

    /** No other queued request has this id. */
    ghost predicate OnlyHolder(w: Node)
      reads this`work, this`slow, work, slow, w
    {
      && w.data.Job?
      && (forall x :: x in work ==> x == w || !x.data.Job? || x.data.id != w.data.id)
      && (forall x :: x in slow ==> x == w || !x.data.Job? || x.data.id != w.data.id)
    }

    /** A queue of a loop, its finished requests or those being drained, apart from the global queues. */
    ghost predicate Beside(h: Node, ys: seq<Node>)
      reads this`work, this`slow, h, ys
    {
      && List(h, ys) && runSlow !in [h] + ys
      && Apart([h] + ys, [wq] + work) && Apart([h] + ys, [slowq] + slow)
    }

    /** Take a queued request off its queue, whichever it is on. */
    method Unlink(w: Node, ghost h: Node, ghost ys: seq<Node>)
      requires Valid() && Beside(h, ys) && w.data.Job? && (w in work || w in slow || w in ys)
      modifies this`work, this`slow, w.prev`next, w.next`prev
      ensures Valid() && work == Cut(old(work), w) && slow == Cut(old(slow), w) && List(h, Cut(ys, w))
    {
      ghost var was, slowWas := work, slow;
      assert Sound(was, slowWas);
      ghost var a, xs, b, bs, c, cs := Roles(w, h, ys);
      assert runSlow !in was ==> w.prev != runSlow && w.next != runSlow by { NeighboursIn(w, a, xs); }
      Unqueue(w, a, xs, b, bs, c, cs);
      work, slow := Cut(was, w), Cut(slowWas, w);
      assert List(wq, work) && List(slowq, slow) && List(h, Cut(ys, w));
      assert Payloads(was, slowWas);
      StillSound(was, slowWas, w);
    }

    /** The list that the request is on, and the two others. */
    lemma {:induction false} Roles(w: Node, h: Node, ys: seq<Node>)
      returns (a: Node, xs: seq<Node>, b: Node, bs: seq<Node>, c: Node, cs: seq<Node>)
      requires Valid() && Beside(h, ys) && (w in work || w in slow || w in ys)
      ensures List(a, xs) && List(b, bs) && List(c, cs) && w in xs
      ensures Apart([a] + xs, [b] + bs) && Apart([a] + xs, [c] + cs) && (runSlow !in work ==> runSlow !in [a] + xs)
      ensures w !in bs && w !in cs
      ensures (a, xs, b, bs, c, cs) == if w in work then (wq, work, slowq, slow, h, ys)
        else if w in slow then (slowq, slow, wq, work, h, ys) else (h, ys, wq, work, slowq, slow)
    {
      assert Sound(work, slow);
      Elsewhere(w, h, ys);
      if w in work {
        a, xs, b, bs, c, cs := wq, work, slowq, slow, h, ys;
      } else if w in slow {
        a, xs, b, bs, c, cs := slowq, slow, wq, work, h, ys;
      } else {
        a, xs, b, bs, c, cs := h, ys, wq, work, slowq, slow;
      }
    }

    /** What is left of two queues without a request is still in order. */
    lemma {:induction false} StillSound(xs: seq<Node>, ys: seq<Node>, w: Node)
      requires List(wq, Cut(xs, w)) && List(slowq, Cut(ys, w)) && Apart([wq] + xs, [slowq] + ys)
      requires runSlow != wq && runSlow !in [slowq] + ys && (runSlow !in xs ==> List(runSlow, []))
      requires Payloads(xs, ys) && w.data.Job?
      ensures Sound(Cut(xs, w), Cut(ys, w))
    {
      var xs', ys' := Cut(xs, w), Cut(ys, w);
      assert Payloads(xs', ys');
      assert Apart([wq] + xs', [slowq] + ys') by {
        forall x | x in [wq] + xs' ensures x !in [slowq] + ys' { assert x in [wq] + xs; }
      }
    }

    /** The three queues have no node in common. */
    lemma {:induction false} Elsewhere(w: Node, h: Node, ys: seq<Node>)
      requires Valid() && Beside(h, ys)
      ensures w in work ==> w !in slow && w !in ys
      ensures w in slow ==> w !in ys
      ensures Apart([wq] + work, [slowq] + slow) && Apart([slowq] + slow, [wq] + work)
      ensures Apart([wq] + work, [h] + ys) && Apart([slowq] + slow, [h] + ys)
    {
      assert Sound(work, slow);
      assert w in work ==> w in [wq] + work;
      assert w in slow ==> w in [slowq] + slow;
      assert w in ys ==> w in [h] + ys;
    }

    method UnlinkView(w: Node, ghost h: Node, ghost ys: seq<Node>)
      requires Valid() && Beside(h, ys) && w.data.Job? && (w in work || w in slow || w in ys)
      modifies this`work, this`slow, w.prev`next, w.next`prev
      ensures Valid() && List(h, Cut(ys, w))
      ensures View() == old(View().(wq := Entries(Cut(work, w)), slowq := Ids(Cut(slow, w))))
    {
      ghost var xs, zs := Cut(work, w), Cut(slow, w);
      ghost var es, ids := Entries(xs), Ids(zs);
      Unlink(w, h, ys);
      ViewOf(xs, es, zs, ids);
    }

    /** The same, as seen in the state. */
    method Withdraw(w: Node, ghost h: Node, ghost ys: seq<Node>)
      requires Valid() && Beside(h, ys) && OnlyHolder(w) && (w in work || w in slow || w in ys)
      modifies this`work, this`slow, w.prev`next, w.next`prev
      ensures Valid() && List(h, Cut(ys, w)) && View() == old(WithoutRequest(View(), w.data.id))
    {
      WithdrawView(w);
      UnlinkView(w, h, ys);
    }

    lemma {:induction false} WithdrawView(w: Node)
      requires Valid() && OnlyHolder(w)
      ensures View().(wq := Entries(Cut(work, w)), slowq := Ids(Cut(slow, w))) == WithoutRequest(View(), w.data.id)
    {
      assert Sound(work, slow);
      CutEntries(work, w);
      CutIds(slow, w);
    }

    /** QUEUE_EMPTY of a request's own link tells whether it is queued. */
    lemma {:induction false} QueuedTest(w: Node, h: Node, ys: seq<Node>)
      requires Valid() && Beside(h, ys)
      ensures w in work || w in slow || w in ys ==> w.next != w
      ensures List(w, []) ==> w.next == w
    {
      assert Sound(work, slow);
      if w in work { Queued(wq, work, w); }
      if w in slow { Queued(slowq, slow, w); }
      if w in ys { Queued(h, ys, w); }
      if List(w, []) { EmptyMeans(w, []); }
    }

    /** The first critical section of uv__work_cancel. A request is on a global queue or in a worker's hands, with its
        function still set, or it is on a queue ys of its loop, finished or cancelled before, or it has been reported.
        It is cancelled, and leaves its queue, exactly if it is on a global queue or was cancelled before and not yet
        reported. */
    method CancelBegin(w: Node, ghost h: Node, ghost ys: seq<Node>) returns (cancelled: bool)
      requires Valid() && Beside(h, ys) && OnlyHolder(w)
      requires w in work || w in slow || List(w, []) ==> w.data.work == Function
      requires w in ys ==> w.data.work != Function
      requires w !in work && w !in slow && w !in ys && !List(w, []) ==> w.data.work == Null
      modifies this`work, this`slow, w.prev`next, w.next`prev
      ensures Valid() && cancelled == old(w in work || w in slow || (w in ys && w.data.work == Cancelled))
      ensures View() == old(if cancelled then WithoutRequest(View(), w.data.id) else View())
      ensures List(h, if cancelled then Cut(ys, w) else ys)
    {
      QueuedTest(w, h, ys);
      cancelled := w.next != w && w.data.work != Null;
      if cancelled {
        Withdraw(w, h, ys);
      }
    }

    /** A request in a worker's hands. */
    ghost predicate Taken(q: Node, id: Item)
      reads this`work, this`slow, q
    {
      q.data.Job? && q.data.id == id && List(q, []) && q !in work && q !in slow
    }
  }

  // ----- one turn of the worker's loop -----

  /** Turns that take nothing shorten the queue or move the slow message behind other work. */
  ghost function Rank(c: Core): (n: nat) {
    2 * |c.wq| + if c.wq != [] && c.wq[0].RunSlow? then 1 else 0
  }

  /** A turn from c to d that starts over, or ends the section with an outcome. */
  ghost predicate Turned(c: Core, d: Core, again: bool, out: Outcome) {
    && SlowOnce(c)
    && (if again then SlowOnce(d) && Section(d) == Section(c) && Rank(d) < Rank(c) else (d, out) == Section(c))
  }

  function Rest(c: Core): (d: Core)
    requires c.wq != []
  {
    c.(wq := c.wq[1..])
  }

  /** What becomes of a state with the slow message at its head. */
  ghost predicate AfterSlow(c: Core, d: Core, again: bool, out: Outcome)
    requires c.wq != []
  {
    var rest := Rest(c);
    if c.slowRunning >= Threshold(c) then again && d == rest.(wq := rest.wq + [RunSlow])
    else if c.slowq == [] then again && d == rest
    else
      var more := |c.slowq| > 1;
      && !again && out == Take(c.slowq[0], true, more && c.idle > 0)
      && d == rest.(slowRunning := c.slowRunning + 1, slowq := c.slowq[1..],
                    wq := rest.wq + if more then [RunSlow] else [])
  }

  lemma {:induction false} ExitAtHead(c: Core)
    requires SlowOnce(c) && c.wq != [] && c.wq[0] == Exit
    ensures Turned(c, c, false, Leave)
  {
  }

  lemma {:induction false} WorkAtHead(c: Core, d: Core, id: Item)
    requires SlowOnce(c) && c.wq != [] && c.wq[0] == Work(id) && d == Rest(c)
    ensures Turned(c, d, false, Take(id, false, false))
  {
  }

  lemma {:induction false} SlowAtHead(c: Core, d: Core, again: bool, out: Outcome)
    requires SlowOnce(c) && c.wq != [] && c.wq[0].RunSlow? && !MustWait(c) && AfterSlow(c, d, again, out)
    ensures Turned(c, d, again, out)
  {
    var rest := c.wq[1..];
    assert c.wq == [RunSlow] + rest;
    assert rest + [] == rest;
    assert rest != [] ==> multiset(rest)[rest[0]] >= 1;
  }

  // ----- the queue of a loop -----

  /** What uv__work_done reports: cancelled requests get UV_ECANCELED, the others success. */
  function Reports(ps: seq<Payload>): (r: seq<(Item, Code)>) {
    seq(|ps|, i requires 0 <= i < |ps| =>
      (IdOf(ps[i]), if ps[i].Job? && ps[i].work == Cancelled then ECanceled else Success))
  }

  lemma {:induction false} ReportsThen(ps: seq<Payload>, i: nat)
    requires i < |ps|
    ensures var p := ps[i];
      Reports(ps[..i + 1]) ==
        Reports(ps[..i]) + [(IdOf(p), if p.Job? && p.work == Cancelled then ECanceled else Success)]
  {
    assert ps[..i + 1] == ps[..i] + [ps[i]];
  }

  /** What is reported for a request is what its delivery in the state machine adds to it. */
  lemma {:induction false} ReportsDelivery(s: Pool, l: nat, p: Payload)
    requires Enabled(s, Deliver(l)) && p == Job(s.loops[l].drained[0], s.requests[s.loops[l].drained[0]].work)
    ensures Reports([p]) == [(p.id, if p.work == Cancelled then ECanceled else Success)]
    ensures Apply(s, Deliver(l)).requests[p.id].done == s.requests[p.id].done + [Reports([p])[0].1]
  {
  }

  class LoopQueue {
    const wq: Node
    ghost var queue: seq<Node>

    ghost predicate Valid()
      reads this, wq, queue
    {
      List(wq, queue) && forall x :: x in queue ==> x.data.Job?
    }

    constructor ()
      ensures Valid() && queue == [] && fresh(wq)
    {
      var a := new Link(Anchor);
      MakeEmpty(a);
      wq, queue := a, [];
    }

    /** The end of a request: a worker marks it NULL once its function has returned, and the second
        half of uv__work_cancel marks it cancelled. */
    method Finish(w: Node, mark: WorkField)
      requires Valid() && w.data.Job? && w !in [wq] + queue
      modifies this`queue, wq, queue, w
      ensures Valid() && queue == old(queue) + [w]
      ensures Contents(queue) == old(Contents(queue)) + [Job(old(w.data.id), mark)]
    {
      ghost var was := Contents(queue);
      w.data := w.data.(work := mark);
      Enqueue(w);
      assert Contents(queue)[..|was|] == was && Contents(queue) == was + [w.data];
    }

    /** QUEUE_INSERT_TAIL on the queue of the loop. */
    method Enqueue(w: Node)
      requires Valid() && w.data.Job? && w !in [wq] + queue
      modifies this`queue, wq, queue, w
      ensures Valid() && queue == old(queue) + [w] && w.data == old(w.data)
      ensures forall x :: x in old(queue) ==> x.data == old(x.data)
    {
      EmptyMeans(wq, queue);
      assert wq.prev in [wq] + queue;
      InsertTail(wq, w, queue);
      queue := queue + [w];
    }

    /** uv__work_done: everything that was queued is reported, in order. */
    method WorkDone() returns (done: seq<(Item, Code)>)
      requires Valid()
      modifies this`queue, wq, queue
      ensures Valid() && queue == []
      ensures done == Reports(old(Contents(queue)))
    {
      ghost var xs, ps := queue, Contents(queue);
      var local := new Link(Anchor);
      assert Ring(wq, queue);
      EmptyMeans(wq, queue);
      Move(wq, local, queue);
      queue := [];
      done := Drain(local, xs, ps);
    }

    /** Its loop over the local queue. */
    method Drain(local: Node, ghost xs: seq<Node>, ghost ps: seq<Payload>) returns (done: seq<(Item, Code)>)
      requires List(local, xs) && |ps| == |xs| && forall k :: 0 <= k < |xs| ==> xs[k].data == ps[k]
      modifies local`next, local`prev, xs`next, xs`prev
      ensures List(local, []) && done == Reports(ps)
    {
      done := [];
      ghost var i: nat := 0;
      assert xs[0..] == xs;
      while true
        invariant i <= |xs| && List(local, xs[i..]) && done == Reports(ps[..i])
        decreases |xs| - i
      {
        EmptyMeans(local, xs[i..]);
        if local.next == local {
          break;
        }
        Second(local, xs[i..]);
        var q := TakeFirst(local, xs[i..]);
        var err := if q.data.Job? && q.data.work == Cancelled then ECanceled else Success;
        done := done + [(IdOf(q.data), err)];
        ReportsThen(ps, i);
        assert xs[i..][1..] == xs[i + 1..];
        i := i + 1;
      }
      assert ps[..i] == ps;
    }
  }
}
