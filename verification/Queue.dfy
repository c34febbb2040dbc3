/** The intrusive circular list of queue.h. A list is a head and the nodes that follow it; every
    macro is proved against the sequence of those nodes. */
module Queue {

  /** A link, with the structure it is embedded in. */
  class Link<T> {
    var next: Link<T>
    var prev: Link<T>
    var data: T

    /** QUEUE_INIT on a new link. */
    constructor (data: T)
      ensures next == this && prev == this && this.data == data
    {
      next, prev, this.data := this, this, data;
    }
  }

  predicate Distinct<T>(s: seq<Link<T>>) { s == [] || (s[0] !in s[1..] && Distinct(s[1..])) }

  predicate Apart<T>(a: seq<Link<T>>, b: seq<Link<T>>) { forall x :: x in a ==> x !in b }

  ghost predicate Joined<T>(a: Link<T>, b: Link<T>)
    reads a, b
  {
    a.next == b && b.prev == a
  }

  /** Consecutive nodes point at each other. */
  ghost predicate Chain<T>(s: seq<Link<T>>)
    reads s
    decreases |s|
  {
    |s| >= 2 ==> Joined(s[0], s[1]) && Chain(s[1..])
  }

  ghost predicate Ring<T>(h: Link<T>, xs: seq<Link<T>>)
    reads h, xs
  {
    Distinct([h] + xs) && Chain([h] + xs + [h])
  }

  /** The nodes xs hang on head h, in that order. The definition unfolds only where Ring is named. */
  ghost predicate List<T>(h: Link<T>, xs: seq<Link<T>>)
    reads h, xs
  {
    forall ys :: ys == xs ==> Ring(h, ys)
  }

  // ----- distinct nodes -----

  lemma {:induction false} DistinctAppend<T>(a: seq<Link<T>>, b: seq<Link<T>>)
    ensures Distinct(a + b) <==> Distinct(a) && Distinct(b) && Apart(a, b)
    decreases |a|
  {
    if a == [] {
      assert a + b == b;
    } else {
      assert (a + b)[1..] == a[1..] + b;
      DistinctAppend(a[1..], b);
      assert a == [a[0]] + a[1..];
    }
  }

  lemma {:induction false} DistinctSnoc<T>(a: seq<Link<T>>, q: Link<T>)
    requires Distinct(a) && q !in a
    ensures Distinct(a + [q])
  {
    assert Distinct([q]) by { assert [q][1..] == []; }
    assert Apart(a, [q]);
    DistinctAppend(a, [q]);
  }

  /** Neither end occurs elsewhere. */
  lemma {:induction false} Ends<T>(s: seq<Link<T>>)
    requires s != [] && Distinct(s)
    ensures forall i :: 0 <= i < |s| - 1 ==> s[i] != s[|s| - 1]
    ensures forall i :: 1 <= i < |s| ==> s[i] != s[0]
  {
    var n := |s| - 1;
    assert s[..n] + s[n..] == s;
    DistinctAppend(s[..n], s[n..]);
    assert forall i :: 0 <= i < n ==> s[i] == s[..n][i];
    assert s[n] == s[n..][0] && s[n] in s[n..];
    assert forall i :: 1 <= i < |s| ==> s[i] == s[1..][i - 1];
  }

  lemma {:induction false} DistinctParts<T>(h: Link<T>, a: seq<Link<T>>, q: Link<T>, b: seq<Link<T>>)
    requires Distinct([h] + (a + [q] + b))
    ensures Distinct([h] + a) && Distinct([q] + b) && Distinct(b) && Apart([h] + a, [q] + b) && Distinct([h] + (a + b))
  {
    var left, right := [h] + a, [q] + b;
    assert [h] + (a + [q] + b) == left + right;
    DistinctAppend(left, right);
    DistinctAppend([q], b);
    assert Apart(left, b) by { assert forall x :: x in b ==> x in right; }
    DistinctAppend(left, b);
    assert [h] + (a + b) == left + b;
  }

  // ----- chains -----

  lemma {:induction false} ChainSplit<T>(a: seq<Link<T>>, b: seq<Link<T>>)
    requires a != [] && b != [] && Chain(a + b)
    ensures Chain(a) && Chain(b) && Joined(a[|a| - 1], b[0])
    decreases |a|
  {
    assert (a + b)[1..] == a[1..] + b;
    if |a| > 1 {
      ChainSplit(a[1..], b);
    } else {
      assert a[1..] + b == b;
    }
  }

  lemma {:induction false} ChainGlue<T>(a: seq<Link<T>>, b: seq<Link<T>>)
    requires a != [] && b != [] && Chain(a) && Chain(b) && Joined(a[|a| - 1], b[0])
    ensures Chain(a + b)
    decreases |a|
  {
    assert (a + b)[1..] == a[1..] + b;
    if |a| > 1 {
      ChainGlue(a[1..], b);
    } else {
      assert a[1..] + b == b;
    }
  }

  /** A chain reads the forward link of all but its last node and the back link of all but its first. */
  twostate lemma {:induction false} ChainKept<T>(s: seq<Link<T>>)
    requires old(Chain(s))
    requires forall i :: 0 <= i < |s| - 1 ==> s[i].next == old(s[i].next)
    requires forall i :: 1 <= i < |s| ==> s[i].prev == old(s[i].prev)
    ensures Chain(s)
    decreases |s|
  {
    if |s| >= 2 {
      assert old(Joined(s[0], s[1]));
      ChainKept(s[1..]);
    }
  }

  // ----- macros -----

  /** QUEUE_INIT. */
  method MakeEmpty<T>(q: Link<T>)
    modifies q
    ensures List(q, []) && q.data == old(q.data)
  {
    q.next := q;
    q.prev := q;
    assert Ring(q, []) by { assert [q] + [] + [q] == [q, q]; }
  }

  /** QUEUE_EMPTY holds exactly of the empty list. */
  lemma {:induction false} EmptyMeans<T>(h: Link<T>, xs: seq<Link<T>>)
    requires List(h, xs)
    ensures h.next == h <==> xs == []
    ensures xs != [] ==> h.next == xs[0] && h.prev == xs[|xs| - 1]
    ensures xs == [] ==> h.prev == h
  {
    var all := [h] + xs + [h];
    assert Ring(h, xs);
    if xs == [] {
      assert all == [h, h];
    } else {
      assert ([h] + xs)[1..] == xs && ([h] + xs)[1] == xs[0] && xs[0] in xs;
      var n := |xs|;
      assert all == ([h] + xs) + [h];
      ChainSplit([h] + xs, [h]);
      assert ([h] + xs)[n] == xs[n - 1];
    }
  }

  /** QUEUE_INSERT_TAIL. */
  method InsertTail<T>(h: Link<T>, q: Link<T>, ghost xs: seq<Link<T>>)
    requires List(h, xs) && q !in [h] + xs
    modifies q`next, q`prev, h`prev, h.prev`next
    ensures List(h, xs + [q])
  {
    ghost var all := [h] + xs;
    assert Ring(h, xs);
    EmptyMeans(h, xs);
    ChainSplit(all, [h]);
    Ends(all);
    label before:
    q.next := h;
    q.prev := h.prev;
    q.prev.next := q;
    h.prev := q;
    ChainKept@before(all);
    ChainGlue(all, [q]);
    ChainGlue(all + [q], [h]);
    assert Ring(h, xs + [q]) by {
      assert [h] + (xs + [q]) == all + [q];
      DistinctSnoc(all, q);
    }
  }

  /** QUEUE_INSERT_HEAD. */
  method InsertHead<T>(h: Link<T>, q: Link<T>, ghost xs: seq<Link<T>>)
    requires List(h, xs) && q !in [h] + xs
    modifies q`next, q`prev, h`next, h.next`prev
    ensures List(h, [q] + xs)
  {
    ghost var rest := xs + [h];
    assert Ring(h, xs);
    EmptyMeans(h, xs);
    assert [h] + xs + [h] == [h] + rest;
    ChainSplit([h], rest);
    Inner(h, xs);
    label before:
    q.next := h.next;
    q.prev := h;
    q.next.prev := q;
    h.next := q;
    ChainKept@before(rest);
    ChainGlue([q], rest);
    ChainGlue([h], [q] + rest);
    assert Ring(h, [q] + xs) by {
      assert [h] + ([q] + xs) + [h] == [h] + ([q] + rest);
      assert ([q] + xs)[1..] == xs && ([h] + ([q] + xs))[1..] == [q] + xs;
    }
  }

  /** Only the head follows the first node of a list. */
  lemma {:induction false} Inner<T>(h: Link<T>, xs: seq<Link<T>>)
    requires Distinct([h] + xs)
    ensures Distinct(xs) && h !in xs
    ensures var rest := xs + [h]; forall i :: 1 <= i < |rest| ==> rest[i] != rest[0]
    ensures forall i :: 0 <= i < |xs| ==> xs[i] != h
  {
    assert ([h] + xs)[1..] == xs;
    if xs != [] { Ends(xs); }
    assert forall i :: 0 <= i < |xs| ==> xs[i] in xs;
  }

  lemma {:induction false} Neighbours<T>(h: Link<T>, a: seq<Link<T>>, q: Link<T>, b: seq<Link<T>>)
    requires List(h, a + [q] + b)
    ensures var left, right := [h] + a, b + [h];
      Chain(left) && Chain(right) && Joined(left[|a|], q) && Joined(q, right[0])
  {
    var left, right := [h] + a, b + [h];
    assert Ring(h, a + [q] + b);
    assert [h] + (a + [q] + b) + [h] == left + ([q] + right);
    ChainSplit(left, [q] + right);
    ChainSplit([q], right);
  }

  /** Which nodes the ends of the gap at q differ from. */
  lemma {:induction false} Gap<T>(h: Link<T>, a: seq<Link<T>>, q: Link<T>, b: seq<Link<T>>)
    requires Distinct([h] + (a + [q] + b))
    ensures var left, right := [h] + a, b + [h];
      && (forall i :: 0 <= i < |left| - 1 ==> left[i] != left[|left| - 1])
      && (forall i :: 1 <= i < |left| ==> left[i] != right[0])
      && (forall i :: 0 <= i < |right| - 1 ==> right[i] != left[|left| - 1])
      && (forall i :: 1 <= i < |right| ==> right[i] != right[0])
      && q != left[|left| - 1] && q != right[0]
  {
    var left, right := [h] + a, b + [h];
    DistinctParts(h, a, q, b);
    Ends(left);
    assert q in [q] + b && forall x :: x in b ==> x in [q] + b;
    assert forall i :: 0 <= i < |left| ==> left[i] in left;
    assert h in left;
    if b != [] {
      Ends(b);
      assert right[0] == b[0] && b[0] in b;
      assert forall i :: 0 <= i < |b| ==> right[i] == b[i] && b[i] in b;
      assert right[|b|] == h;
    }
  }

  /** QUEUE_REMOVE takes q out, wherever it is; its own links are left dangling. */
  method Remove<T>(q: Link<T>, ghost h: Link<T>, ghost a: seq<Link<T>>, ghost b: seq<Link<T>>)
    requires List(h, a + [q] + b)
    modifies q.prev`next, q.next`prev
    ensures List(h, a + b)
    ensures q.next == old(q.next) && q.prev == old(q.prev)
  {
    ghost var left, right := [h] + a, b + [h];
    assert Ring(h, a + [q] + b);
    Neighbours(h, a, q, b);
    Gap(h, a, q, b);
    label before:
    q.prev.next := q.next;
    q.next.prev := q.prev;
    ChainKept@before(left);
    ChainKept@before(right);
    ChainGlue(left, right);
    assert Ring(h, a + b) by {
      assert [h] + (a + b) + [h] == left + right;
      DistinctParts(h, a, q, b);
    }
  }

  lemma {:induction false} Behind<T>(h: Link<T>, a: seq<Link<T>>, q: Link<T>, b: seq<Link<T>>)
    requires List(h, a + [q] + b)
    ensures Chain([h] + a) && Chain([q] + b) && Joined(([h] + a)[|a|], q) && h.prev == ([q] + b)[|b|]
  {
    var right := [q] + b;
    assert Ring(h, a + [q] + b);
    Neighbours(h, a, q, b);
    assert [h] + (a + [q] + b) + [h] == [h] + a + (right + [h]);
    ChainSplit([h] + a, right + [h]);
    ChainSplit(right, [h]);
  }

  /** What QUEUE_SPLIT overwrites is not what the two halves rest on. */
  lemma {:induction false} Halves<T>(left: seq<Link<T>>, right: seq<Link<T>>, n: Link<T>)
    requires left != [] && right != [] && Distinct(left) && Distinct(right) && Apart(left, right) && n !in left + right
    ensures forall i :: 0 <= i < |left| - 1 ==> left[i] !in {left[|left| - 1], right[|right| - 1], n}
    ensures forall i :: 1 <= i < |left| ==> left[i] !in {left[0], right[0], n}
    ensures forall i :: 0 <= i < |right| - 1 ==> right[i] !in {left[|left| - 1], right[|right| - 1], n}
    ensures forall i :: 1 <= i < |right| ==> right[i] !in {left[0], right[0], n}
    ensures left[|left| - 1] != right[|right| - 1] && left[0] != right[0]
    ensures right[|right| - 1] != n && left[|left| - 1] != n
  {
    Ends(left);
    Ends(right);
    assert forall i :: 0 <= i < |left| ==> left[i] in left && left[i] in left + right;
    assert forall i :: 0 <= i < |right| ==> right[i] in right && right[i] in left + right;
  }

  /** QUEUE_SPLIT: the nodes from q on move to head n. */
  method Split<T>(h: Link<T>, q: Link<T>, n: Link<T>, ghost a: seq<Link<T>>, ghost b: seq<Link<T>>)
    requires List(h, a + [q] + b) && n !in [h] + a + ([q] + b)
    modifies n`next, n`prev, h`prev, h.prev`next, q`prev, q.prev`next
    ensures List(h, a) && List(n, [q] + b)
  {
    ghost var left, right := [h] + a, [q] + b;
    assert Ring(h, a + [q] + b);
    Behind(h, a, q, b);
    DistinctParts(h, a, q, b);
    Halves(left, right, n);
    label before:
    n.prev := h.prev;
    n.prev.next := n;
    n.next := q;
    h.prev := q.prev;
    h.prev.next := h;
    q.prev := n;
    ChainKept@before(left);
    ChainKept@before(right);
    CloseRing(h, a);
    Rehang(n, right);
  }

  lemma {:induction false} CloseRing<T>(h: Link<T>, xs: seq<Link<T>>)
    requires var left := [h] + xs; Distinct(left) && Chain(left) && Joined(left[|xs|], h)
    ensures List(h, xs)
  {
    ChainGlue([h] + xs, [h]);
    assert Ring(h, xs);
  }

  lemma {:induction false} Rehang<T>(n: Link<T>, right: seq<Link<T>>)
    requires right != [] && Chain(right) && Distinct(right) && n !in right
    requires Joined(n, right[0]) && Joined(right[|right| - 1], n)
    ensures List(n, right)
  {
    ChainGlue([n], right);
    ChainGlue([n] + right, [n]);
    assert ([n] + right)[1..] == right;
    assert Ring(n, right);
  }

  /** QUEUE_MOVE: everything moves to head n, and h is left empty. */
  method Move<T>(h: Link<T>, n: Link<T>, ghost xs: seq<Link<T>>)
    requires List(h, xs) && n !in [h] + xs
    modifies n, h`next, h`prev, h.prev`next, h.next`prev
    ensures List(h, []) && List(n, xs)
    ensures n.data == old(n.data)
  {
    EmptyMeans(h, xs);
    if h.next == h {
      MakeEmpty(n);
    } else {
      var q := h.next;
      assert xs == [] + [q] + xs[1..] == [q] + xs[1..];
      assert [h] + [] + ([q] + xs[1..]) == [h] + xs;
      Neighbours(h, [], q, xs[1..]);
      Split(h, q, n, [], xs[1..]);
    }
  }

  /** Two lists, neither touching the other. */
  ghost predicate Separate<T>(h: Link<T>, xs: seq<Link<T>>, n: Link<T>, ys: seq<Link<T>>) {
    Apart([h] + xs, [n] + ys)
  }

  /** QUEUE_ADD: the nodes of n go behind those of h; n is no longer a list. */
  method Add<T>(h: Link<T>, n: Link<T>, ghost xs: seq<Link<T>>, ghost ys: seq<Link<T>>)
    requires List(h, xs) && List(n, ys) && Separate(h, xs, n, ys)
    modifies h`prev, h.prev`next, n.next`prev, n.prev`next
    ensures List(h, xs + ys)
  {
    EmptyMeans(h, xs);
    EmptyMeans(n, ys);
    ghost var left := [h] + xs;
    assert Ring(h, xs) && Ring(n, ys);
    assert n in [n] + ys && n !in left;
    Ends(left);
    ChainSplit(left, [h]);
    if ys != [] {
      Unhang(n, ys);
      assert Apart(left, ys) by { assert forall y :: y in ys ==> y in [n] + ys; }
      Halves(left, ys, n);
    }
    label before:
    h.prev.next := n.next;
    n.next.prev := h.prev;
    h.prev := n.prev;
    h.prev.next := h;
    ChainKept@before(left);
    if ys == [] {
      CloseRing(h, xs);
      assert xs + ys == xs;
    } else {
      ChainKept@before(ys);
      Concatenate(h, xs, ys);
    }
  }

  lemma {:induction false} Unhang<T>(n: Link<T>, ys: seq<Link<T>>)
    requires List(n, ys) && ys != []
    ensures Chain(ys) && Distinct(ys) && n !in ys
  {
    assert Ring(n, ys);
    ChainSplit([n] + ys, [n]);
    ChainSplit([n], ys);
    assert ([n] + ys)[1..] == ys;
  }

  lemma {:induction false} Concatenate<T>(h: Link<T>, xs: seq<Link<T>>, ys: seq<Link<T>>)
    requires var left := [h] + xs;
      && ys != [] && Chain(left) && Chain(ys) && Distinct(left) && Distinct(ys) && Apart(left, ys)
      && Joined(left[|xs|], ys[0]) && Joined(ys[|ys| - 1], h)
    ensures List(h, xs + ys)
  {
    var left := [h] + xs;
    ChainGlue(left, ys);
    ChainGlue(left + ys, [h]);
    DistinctAppend(left, ys);
    assert [h] + (xs + ys) == left + ys;
    assert Ring(h, xs + ys);
  }

  /** Where w is. */
  ghost function Position<T>(xs: seq<Link<T>>, w: Link<T>): (i: nat)
    requires w in xs
    ensures i < |xs| && xs[i] == w && w !in xs[..i]
  {
    if xs[0] == w then 0 else Position(xs[1..], w) + 1
  }

  /** The nodes but w. */
  ghost function Cut<T>(xs: seq<Link<T>>, w: Link<T>): (r: seq<Link<T>>)
    ensures forall x :: x in r ==> x in xs
    ensures forall x :: x in xs && x != w ==> x in r
  {
    if w in xs then
      var i := Position(xs, w);
      assert xs == xs[..i] + [w] + xs[i + 1..];
      xs[..i] + xs[i + 1..]
    else xs
  }

  lemma {:induction false} NeighboursIn<T>(w: Link<T>, h: Link<T>, xs: seq<Link<T>>)
    requires List(h, xs) && w in xs
    ensures w.prev in [h] + xs && w.next in [h] + xs
  {
    var i := Position(xs, w);
    var a, b := xs[..i], xs[i + 1..];
    assert xs == a + [w] + b;
    Neighbours(h, a, w, b);
  }

  /** QUEUE_REMOVE of a node of one list leaves two other lists alone. */
  method Unqueue<T>(w: Link<T>, ghost h: Link<T>, ghost xs: seq<Link<T>>, ghost g: Link<T>, ghost ys: seq<Link<T>>,
                    ghost k: Link<T>, ghost zs: seq<Link<T>>)
    requires List(h, xs) && List(g, ys) && List(k, zs) && w in xs
    requires Apart([h] + xs, [g] + ys) && Apart([h] + xs, [k] + zs)
    modifies w.prev`next, w.next`prev
    ensures List(h, Cut(xs, w)) && List(g, ys) && List(k, zs)
  {
    ghost var i := Position(xs, w);
    ghost var a, b := xs[..i], xs[i + 1..];
    assert xs == a + [w] + b;
    NeighboursIn(w, h, xs);
    assert w.prev !in [g] + ys && w.next !in [g] + ys && w.prev !in [k] + zs && w.next !in [k] + zs;
    Remove(w, h, a, b);
  }

  // ----- uv_walk -----

  datatype Handle = Handle(id: nat, internal: bool)

  /** The handles that a walk shows its callback. */
  function Visible(hs: seq<Handle>): (r: seq<Handle>) {
    if hs == [] then []
    else
      var last := hs[|hs| - 1];
      Visible(hs[..|hs| - 1]) + (if last.internal then [] else [last])
  }

  lemma {:induction false} VisibleStep(hs: seq<Handle>, i: nat)
    requires i < |hs|
    ensures Visible(hs[..i + 1]) == Visible(hs[..i]) + if hs[i].internal then [] else [hs[i]]
  {
    assert hs[..i + 1][..i] == hs[..i];
  }

  /** Each handle that is not internal is shown as often as it is listed: once, if ids are distinct. */
  lemma {:induction false} VisibleOnce(hs: seq<Handle>, h: Handle)
    ensures multiset(Visible(hs))[h] == if h.internal then 0 else multiset(hs)[h]
  {
    if hs != [] {
      var n := |hs| - 1;
      assert hs == hs[..n] + [hs[n]];
      VisibleOnce(hs[..n], h);
    }
  }

  function Contents<T>(xs: seq<Link<T>>): (r: seq<T>)
    reads xs
    ensures |r| == |xs|
    ensures forall i :: 0 <= i < |xs| ==> r[i] == xs[i].data
  {
    if xs == [] then [] else Contents(xs[..|xs| - 1]) + [xs[|xs| - 1].data]
  }

  lemma {:induction false} Second<T>(h: Link<T>, xs: seq<Link<T>>)
    requires List(h, xs) && xs != []
    ensures h.next.next == if |xs| == 1 then h else xs[1]
  {
    EmptyMeans(h, xs);
    assert xs == [] + [xs[0]] + xs[1..];
    Neighbours(h, [], xs[0], xs[1..]);
  }

  /** A queued node is not marked as unqueued. */
  lemma {:induction false} Queued<T>(h: Link<T>, xs: seq<Link<T>>, x: Link<T>)
    requires List(h, xs) && x in xs
    ensures x.next != x
  {
    var i :| 0 <= i < |xs| && xs[i] == x;
    var a, b := xs[..i], xs[i + 1..];
    assert xs == a + [x] + b;
    assert Ring(h, xs);
    Neighbours(h, a, x, b);
    Gap(h, a, x, b);
  }

  /** Take the first node of one list. */
  method TakeFirst<T>(h: Link<T>, ghost xs: seq<Link<T>>) returns (q: Link<T>)
    requires List(h, xs) && xs != []
    modifies h`next, h.next.next`prev
    ensures q == xs[0] && List(h, xs[1..])
  {
    EmptyMeans(h, xs);
    q := h.next;
    assert xs == [] + [q] + xs[1..] && [] + xs[1..] == xs[1..];
    Neighbours(h, [], q, xs[1..]);
    Remove(q, h, [], xs[1..]);
  }

  /** uv_walk with callbacks that leave the list alone: `shown` is what the callback saw, in order,
      and the list is as before. */
  method Walk(head: Link<Handle>, ghost xs: seq<Link<Handle>>) returns (shown: seq<Handle>)
    requires List(head, xs)
    modifies [head] + xs
    ensures List(head, xs) && Contents(xs) == old(Contents(xs))
    ensures shown == Visible(old(Contents(xs)))
  {
    ghost var data := Contents(xs);
    var queue := new Link(Handle(0, true));
    shown := [];
    assert Ring(head, xs);
    EmptyMeans(head, xs);
    Move(head, queue, xs);
    ghost var i: nat := 0;
    assert xs[0..] == xs && xs[..0] == [];
    while true
      invariant i <= |xs| && fresh(queue)
      invariant List(queue, xs[i..]) && List(head, xs[..i])
      invariant forall k :: 0 <= k < |xs| ==> xs[k].data == data[k]
      invariant shown == Visible(data[..i])
      decreases |xs| - i
    {
      EmptyMeans(queue, xs[i..]);
      if queue.next == queue {
        break;
      }
      var q := PassOn(queue, head, xs, i);
      VisibleStep(data, i);
      i := i + 1;
      if q.data.internal {
        continue;
      }
      shown := shown + [q.data];
    }
    assert xs[..i] == xs && data[..i] == data;
    assert Contents(xs) == data;
  }

  /** QUEUE_HEAD and QUEUE_REMOVE on one list, and QUEUE_INSERT_TAIL on another beside it. */
  method Transfer<T>(queue: Link<T>, head: Link<T>, ghost rest: seq<Link<T>>, ghost done: seq<Link<T>>)
    returns (q: Link<T>)
    requires List(queue, rest) && List(head, done) && rest != [] && Apart([head] + done, [queue] + rest)
    modifies [queue] + rest, [head] + done
    ensures q == rest[0] && List(queue, rest[1..]) && List(head, done + [q])
    ensures forall x :: x in done || x in rest ==> x.data == old(x.data)
  {
    assert Ring(queue, rest);
    Inner(queue, rest);
    EmptyMeans(queue, rest);
    Second(queue, rest);
    assert queue in [queue] + rest && queue.next in [queue] + rest && queue.next.next in [queue] + rest;
    q := TakeFirst(queue, rest);
    EmptyMeans(head, done);
    assert head in [head] + done && head.prev in [head] + done;
    InsertBeside(head, q, done, queue, rest);
  }

  method InsertBeside<T>(head: Link<T>, q: Link<T>, ghost done: seq<Link<T>>, ghost queue: Link<T>,
                         ghost rest: seq<Link<T>>)
    requires List(head, done) && rest != [] && q == rest[0] && List(queue, rest[1..])
    requires Apart([head] + done, [queue] + rest) && q !in [queue] + rest[1..]
    modifies q`next, q`prev, head`prev, head.prev`next
    ensures List(head, done + [q]) && List(queue, rest[1..])
  {
    EmptyMeans(head, done);
    assert head in [head] + done && head.prev in [head] + done && q in [queue] + rest;
    assert forall x :: x in [queue] + rest[1..] ==> x in [queue] + rest;
    InsertTail(head, q, done);
  }

  /** One round of the loop: the first node of the local queue goes to the end of the other. */
  method PassOn<T>(queue: Link<T>, head: Link<T>, ghost xs: seq<Link<T>>, ghost i: nat) returns (q: Link<T>)
    requires i < |xs| && Distinct([head] + xs) && queue !in [head] + xs
    requires List(queue, xs[i..]) && List(head, xs[..i])
    modifies queue, [head] + xs
    ensures q == xs[i] && List(queue, xs[i + 1..]) && List(head, xs[..i + 1])
    ensures forall x :: x in xs ==> x.data == old(x.data)
  {
    ghost var done, rest := xs[..i], xs[i..];
    PartsApart(queue, head, xs, i);
    q := Transfer(queue, head, rest, done);
    assert rest[1..] == xs[i + 1..] && done + [q] == xs[..i + 1];
  }

  lemma {:induction false} PartsApart<T>(queue: Link<T>, head: Link<T>, xs: seq<Link<T>>, i: nat)
    requires i < |xs| && Distinct([head] + xs) && queue !in [head] + xs
    ensures Apart([head] + xs[..i], [queue] + xs[i..])
    ensures forall x :: x in xs <==> x in xs[..i] || x in xs[i..]
  {
    assert [head] + xs == ([head] + xs[..i]) + xs[i..];
    DistinctAppend([head] + xs[..i], xs[i..]);
    assert xs == xs[..i] + xs[i..];
    assert forall x :: x in [head] + xs[..i] ==> x in [head] + xs;
  }
}
