/** The pointer-linked binary min heap of libuv, with the heap node embedded in the timer as in the
    C struct. Ghost field `slots` lists the nodes in level order; slot numbers start at 1, so that
    slot n has children 2n and 2n+1 and parent n/2. */
module Heap {

  class Timer {
    var left: Timer?
    var right: Timer?
    var parent: Timer?
    var timeout: nat
    var startId: nat
    var repeat: nat
    var hasCallback: bool
    var active: bool
    var referenced: bool
    var closing: bool

    /** uv_timer_init: a referenced handle that is not running. */
    constructor ()
      ensures !hasCallback && repeat == 0 && !active && referenced && !closing
      ensures timeout == 0 && startId == 0
    {
      left, right, parent := null, null, null;
      timeout, startId := 0, 0;
      repeat, hasCallback, active, referenced, closing := 0, false, false, true, false;
    }
  }

  /** timer_less_than. */
  predicate Less(a: Timer, b: Timer)
    reads a`timeout, a`startId, b`timeout, b`startId
  {
    if a.timeout < b.timeout then true
    else if b.timeout < a.timeout then false
    else a.startId < b.startId
  }

  // ----- order -----

  datatype Key = Key(timeout: nat, id: nat)

  predicate KeyLess(a: Key, b: Key) {
    a.timeout < b.timeout || (a.timeout == b.timeout && a.id < b.id)
  }

  function KeyOf(t: Timer): (k: Key)
    reads t`timeout, t`startId
  {
    Key(t.timeout, t.startId)
  }

  ghost function Keys(s: seq<Timer>): (k: seq<Key>)
    reads s`timeout, s`startId
    ensures |k| == |s|
    ensures forall i :: 0 <= i < |s| ==> k[i] == KeyOf(s[i])
  {
    if s == [] then [] else Keys(s[..|s| - 1]) + [KeyOf(s[|s| - 1])]
  }

  /** Slot n is not smaller than its parent. */
  predicate PairOk(k: seq<Key>, n: int)
    requires 2 <= n <= |k|
  {
    !KeyLess(k[n - 1], k[n / 2 - 1])
  }

  ghost predicate Ordered(k: seq<Key>) {
    forall n {:trigger PairOk(k, n)} :: 2 <= n <= |k| ==> PairOk(k, n)
  }

  /** The children of slot i are not smaller than its parent. */
  predicate SkipOk(k: seq<Key>, i: int, n: int) {
    2 <= n <= |k| && n / 2 == i && i >= 2 ==> !KeyLess(k[n - 1], k[i / 2 - 1])
  }

  /** Order with the occupant of slot i possibly smaller than its parent. */
  ghost predicate TooLow(k: seq<Key>, i: int) {
    && 1 <= i <= |k|
    && (forall n {:trigger PairOk(k, n)} :: 2 <= n <= |k| && n != i ==> PairOk(k, n))
    && (forall n {:trigger SkipOk(k, i, n)} :: SkipOk(k, i, n))
  }

  /** Order with the occupant of slot i out of place in either direction. */
  ghost predicate Loose(k: seq<Key>, i: int) {
    && 1 <= i <= |k|
    && (forall n {:trigger PairOk(k, n)} :: 2 <= n <= |k| && n != i && n / 2 != i ==> PairOk(k, n))
    && (forall n {:trigger SkipOk(k, i, n)} :: SkipOk(k, i, n))
  }

  lemma {:induction false} StepUp(k: seq<Key>, i: int)
    requires TooLow(k, i) && i >= 2 && KeyLess(k[i - 1], k[i / 2 - 1])
    ensures TooLow(Swapped(k, i / 2, i), i / 2)
  {
    var p := i / 2;
    var k' := Swapped(k, p, i);
    forall n | 2 <= n <= |k| && n != p ensures PairOk(k', n) {
      if n != i { assert PairOk(k, n); }
      assert SkipOk(k, i, n);
    }
    forall n ensures SkipOk(k', p, n) {
      if 2 <= n <= |k| && n / 2 == p && p >= 2 {
        assert PairOk(k, p);
        if n != i { assert PairOk(k, n); }
      }
    }
  }

  /** Going down to the smaller child c. */
  lemma {:induction false} StepDown(k: seq<Key>, i: int, c: int)
    requires Loose(k, i) && 2 <= c <= |k| && c / 2 == i
    requires forall n :: 2 <= n <= |k| && n / 2 == i ==> !KeyLess(k[n - 1], k[c - 1])
    requires KeyLess(k[c - 1], k[i - 1])
    ensures Loose(Swapped(k, i, c), c)
  {
    var k' := Swapped(k, i, c);
    forall n | 2 <= n <= |k| && n != c && n / 2 != c ensures PairOk(k', n) {
      if n == i {
        assert SkipOk(k, i, c);
      } else if n / 2 != i {
        assert PairOk(k, n);
      }
    }
    forall n ensures SkipOk(k', c, n) {
      if 2 <= n <= |k| && n / 2 == c { assert PairOk(k, n); }
    }
  }

  lemma {:induction false} DownDone(k: seq<Key>, i: int)
    requires Loose(k, i) && forall n :: 2 <= n <= |k| && n / 2 == i ==> !KeyLess(k[n - 1], k[i - 1])
    ensures TooLow(k, i)
  {
    forall n | 2 <= n <= |k| && n != i ensures PairOk(k, n) {
    }
  }

  lemma {:induction false} UpDone(k: seq<Key>, i: int)
    requires TooLow(k, i) && (i >= 2 ==> PairOk(k, i))
    ensures Ordered(k)
  {
  }

  /** The root is the least of all. */
  lemma {:induction false} RootIsLeast(k: seq<Key>, n: int)
    requires Ordered(k) && 1 <= n <= |k|
    ensures !KeyLess(k[n - 1], k[0])
  {
    if n >= 2 {
      assert PairOk(k, n);
      RootIsLeast(k, n / 2);
    }
  }

  /** Appending at the end, and replacing an occupant after the last slot was cut off. */
  lemma {:induction false} AppendTooLow(k: seq<Key>, x: Key)
    requires Ordered(k)
    ensures TooLow(k + [x], |k| + 1)
  {
    forall n | 2 <= n <= |k| ensures PairOk(k + [x], n) {
      assert PairOk(k, n);
    }
  }

  lemma {:induction false} ReplaceLoose(k: seq<Key>, x: Key, r: int)
    requires Ordered(k) && 1 <= r < |k|
    ensures Loose(k[..|k| - 1][r - 1 := x], r)
  {
    var k' := k[..|k| - 1][r - 1 := x];
    forall n | 2 <= n <= |k'| && n != r && n / 2 != r ensures PairOk(k', n) {
      assert PairOk(k, n);
    }
    forall n ensures SkipOk(k', r, n) {
      if 2 <= n <= |k'| && n / 2 == r && r >= 2 {
        assert PairOk(k, n) && PairOk(k, r);
      }
    }
  }

  lemma {:induction false} PrefixOrdered(k: seq<Key>, m: nat)
    requires Ordered(k) && m <= |k|
    ensures Ordered(k[..m])
  {
    forall n | 2 <= n <= m ensures PairOk(k[..m], n) {
      assert PairOk(k, n);
    }
  }

  // ----- complete trees in level order -----

  datatype Links = Links(left: Timer?, right: Timer?, parent: Timer?)

  ghost function At(s: seq<Timer>, n: int): (t: Timer?) {
    if 1 <= n <= |s| then s[n - 1] else null
  }

  ghost predicate Distinct(s: seq<Timer>) {
    forall i, j :: 0 <= i < j < |s| ==> s[i] != s[j]
  }

  /** The links that slot n must have. */
  ghost function Wanted(s: seq<Timer>, n: int): (l: Links) {
    Links(At(s, 2 * n), At(s, 2 * n + 1), At(s, n / 2))
  }

  /** What heap_node_swap makes of the links l of node t: `p` and `c` change places, the other child
      of p, the children of c and the parent of p are redirected. */
  ghost function Redirect(t: Timer, l: Links, p: Timer, lp: Links, c: Timer, lc: Links): (r: Links) {
    var onLeft := lp.left == c;
    if t == p then Links(lc.left, lc.right, c)
    else if t == c then Links(if onLeft then p else lp.left, if onLeft then lp.right else p, lp.parent)
    else
      Links(if t == lp.parent && l.left == p then c else l.left,
            if t == lp.parent && l.left != p then c else l.right,
            if t == lc.left || t == lc.right then p
            else if t == (if onLeft then lp.right else lp.left) then c else l.parent)
  }

  ghost function Around(l: Links): (r: set<Timer>) {
    Node(l.left) + Node(l.right) + Node(l.parent)
  }

  /** The nodes that heap_node_swap touches are different from each other. */
  ghost predicate Apart(p: Timer, lp: Links, c: Timer, lc: Links) {
    var sibling := if lp.left == c then lp.right else lp.left;
    && p != c && (lp.left == c || lp.right == c) && lp.parent != p && lp.parent != c
    && sibling != c
    && (sibling != null ==> sibling != p && sibling != lp.parent && sibling != lc.left && sibling != lc.right)
    && (lc.left != null ==> lc.left != p && lc.left != c && lc.left != lp.parent && lc.left != lc.right)
    && (lc.right != null ==> lc.right != p && lc.right != c && lc.right != lp.parent)
    && lc.parent == p
  }

  function Swapped<T>(s: seq<T>, p: int, c: int): (r: seq<T>)
    requires 1 <= p < c <= |s|
    ensures |r| == |s|
  {
    s[p - 1 := s[c - 1]][c - 1 := s[p - 1]]
  }

  lemma {:induction false} SwapElsewhere(s: seq<Timer>, p: int, c: int, n: int)
    requires Distinct(s) && 1 <= p < c <= |s| && c / 2 == p && 1 <= n <= |s| && n != p && n != c
    ensures Redirect(s[n - 1], Wanted(s, n), s[p - 1], Wanted(s, p), s[c - 1], Wanted(s, c)) ==
      Wanted(Swapped(s, p, c), n)
  {
    SameSlot(s, n, p / 2);
    SameSlot(s, n, 2 * c);
    SameSlot(s, n, 2 * c + 1);
    SameSlot(s, n, 2 * p);
    SameSlot(s, n, 2 * p + 1);
    SameSlot(s, 2 * n, p);
    SameSlot(s, 2 * p, c);
  }

  /** Equal occupants mean equal slots. */
  lemma {:induction false} SameSlot(s: seq<Timer>, m: int, n: int)
    requires Distinct(s)
    ensures At(s, m) == At(s, n) && At(s, m) != null ==> m == n
  {
  }

  lemma {:induction false} SwapAtParent(s: seq<Timer>, p: int, c: int)
    requires Distinct(s) && 1 <= p < c <= |s| && c / 2 == p
    ensures Redirect(s[c - 1], Wanted(s, c), s[p - 1], Wanted(s, p), s[c - 1], Wanted(s, c)) ==
      Wanted(Swapped(s, p, c), p)
  {
    SameSlot(s, p, c);
    SameSlot(s, 2 * p, c);
  }

  lemma {:induction false} SwapAtChild(s: seq<Timer>, p: int, c: int)
    requires Distinct(s) && 1 <= p < c <= |s| && c / 2 == p
    ensures Redirect(s[p - 1], Wanted(s, p), s[p - 1], Wanted(s, p), s[c - 1], Wanted(s, c)) ==
      Wanted(Swapped(s, p, c), c)
  {
  }

  ghost function Appended(l: Links, x: Timer, n: int, last: int): (r: Links) {
    if n == last then Links(null, null, l.parent)
    else if 2 * n == last then l.(left := x)
    else if 2 * n + 1 == last then l.(right := x)
    else l
  }

  /** One more slot at the end changes the links of its parent only. */
  lemma {:induction false} AppendWanted(s: seq<Timer>, x: Timer, n: int)
    requires 1 <= n <= |s| + 1
    ensures Wanted(s + [x], n) == Appended(Wanted(s, n), x, n, |s| + 1)
  {
  }

  ghost function Sub(t: Timer?, was: Timer, now: Timer): (r: Timer?) {
    if t == was then now else t
  }

  /** A different occupant of slot r is seen in place of the old one wherever slot r is linked. */
  lemma {:induction false} ReplaceWanted(s: seq<Timer>, x: Timer, r: int, n: int)
    requires Distinct(s) && 1 <= r <= |s| && 1 <= n <= |s|
    ensures var l, was := Wanted(s, n), s[r - 1];
      Wanted(s[r - 1 := x], n) == Links(Sub(l.left, was, x), Sub(l.right, was, x), Sub(l.parent, was, x))
  {
    SameSlot(s, 2 * n, r); SameSlot(s, 2 * n + 1, r); SameSlot(s, n / 2, r);
  }

  ghost function LinksOf(t: Timer): (r: Links)
    reads t`left, t`right, t`parent
  {
    Links(t.left, t.right, t.parent)
  }

  ghost function Node(t: Timer?): (r: set<Timer>) { if t == null then {} else {t} }

  ghost predicate NodeOk(s: seq<Timer>, n: int)
    requires 1 <= n <= |s|
    reads s`left, s`right, s`parent
  {
    LinksOf(s[n - 1]) == Wanted(s, n)
  }

  /** The pointers of the nodes form the complete binary tree that `s` lists. */
  ghost predicate Complete(s: seq<Timer>)
    reads s`left, s`right, s`parent
  {
    Distinct(s) && forall n {:trigger NodeOk(s, n)} :: 1 <= n <= |s| ==> NodeOk(s, n)
  }

  // ----- finding a slot -----

  /** Where k steps down from slot `pos` lead, the lowest bit of `path` first. */
  function Follow(pos: nat, path: nat, k: nat): (n: nat)
    ensures k > 0 ==> n >= 2 * pos
    decreases k
  {
    if k == 0 then pos else Follow(2 * pos + path % 2, path / 2, k - 1)
  }

  /** The address of a pointer to a node: the root pointer or a child pointer. */
  datatype Place = Root | LeftOf(t: Timer) | RightOf(t: Timer)

  ghost function PlaceNode(p: Place): (r: set<Timer>) {
    match p case Root => {} case LeftOf(t) => {t} case RightOf(t) => {t}
  }

  ghost function PlaceOf(s: seq<Timer>, n: int): (p: Place)
    requires 1 <= n && n / 2 <= |s|
  {
    if n == 1 then Root else if n % 2 == 0 then LeftOf(s[n / 2 - 1]) else RightOf(s[n / 2 - 1])
  }

  /** The loops that collect the bits of n below its leading one, lowest last. */
  method PathTo(n: nat) returns (path: nat, k: nat)
    requires n >= 1
    ensures Follow(1, path, k) == n
    ensures n >= 2 ==> k > 0
  {
    var m := n;
    path, k := 0, 0;
    while m >= 2
      invariant m >= 1 && Follow(m, path, k) == n
      invariant m == n || k > 0
    {
      assert Follow(m / 2, 2 * path + m % 2, k + 1) == Follow(2 * (m / 2) + m % 2, path, k);
      path, m, k := 2 * path + m % 2, m / 2, k + 1;
    }
  }

  method SetParent(t: Timer?, p: Timer?)
    modifies Node(t)`parent
    ensures t != null ==> t.parent == p
  {
    if t != null {
      t.parent := p;
    }
  }

  class TimerHeap {
    var min: Timer?
    var nelts: nat
    ghost var slots: seq<Timer>

    ghost predicate Shape()
      reads this, slots`left, slots`right, slots`parent
    {
      nelts == |slots| && min == At(slots, 1) && Complete(slots)
    }

    ghost function Nodes(): (r: set<Timer>)
      reads this`slots
    {
      set t | t in slots
    }

    constructor ()
      ensures Shape() && slots == []
    {
      min, nelts, slots := null, 0, [];
    }

    function Deref(p: Place): (t: Timer?)
      reads this`min, match p case Root => {} case LeftOf(t) => {t} case RightOf(t) => {t}
    {
      match p
      case Root => min
      case LeftOf(t) => t.left
      case RightOf(t) => t.right
    }

    /** The descent along a path: the place of slot n and of its parent. */
    method Descend(n: nat, path0: nat, k0: nat) returns (parent: Place, child: Place)
      requires Shape() && 1 <= n <= |slots| + 1 && Follow(1, path0, k0) == n
      ensures child == PlaceOf(slots, n)
      ensures parent == if n == 1 then Root else PlaceOf(slots, n / 2)
    {
      var path, k := path0, k0;
      parent, child := Root, Root;
      ghost var pos := 1;
      while k > 0
        invariant pos >= 1 && Follow(pos, path, k) == n
        invariant pos / 2 <= |slots| && child == PlaceOf(slots, pos)
        invariant parent == if pos == 1 then Root else PlaceOf(slots, pos / 2)
        decreases k
      {
        assert 2 * pos <= n && pos <= |slots|;
        AtPlace(pos);
        var t := Deref(child);
        parent := child;
        if path % 2 == 1 {
          child := RightOf(t);
        } else {
          child := LeftOf(t);
        }
        pos := 2 * pos + path % 2;
        path := path / 2;
        k := k - 1;
      }
    }

    lemma {:induction false} AtPlace(n: int)
      requires Shape() && 1 <= n && n / 2 <= |slots|
      ensures Deref(PlaceOf(slots, n)) == At(slots, n)
    {
      if n >= 2 {
        assert NodeOk(slots, n / 2);
        assert n == 2 * (n / 2) || n == 2 * (n / 2) + 1;
      }
    }

    method FindPlace(n: nat) returns (parent: Place, child: Place)
      requires Shape() && 1 <= n <= |slots| + 1
      ensures child == PlaceOf(slots, n) && Deref(child) == At(slots, n)
      ensures Deref(parent) == if n == 1 then min else At(slots, n / 2)
    {
      var path, k := PathTo(n);
      parent, child := Descend(n, path, k);
      AtPlace(n);
      if n >= 2 {
        AtPlace(n / 2);
      }
    }

    // ----- heap_node_swap -----

    method ReplaceChild(of: Timer?, was: Timer, now: Timer)
      modifies this`min, Node(of)`left, Node(of)`right
      ensures of == null ==> min == now
      ensures of != null ==> min == old(min)
      ensures of != null ==> of.left == (if old(of.left) == was then now else old(of.left))
      ensures of != null ==> of.right == (if old(of.left) == was then old(of.right) else now)
    {
      if of == null {
        min := now;
      } else if of.left == was {
        of.left := now;
      } else {
        of.right := now;
      }
    }

    /** The nodes around a swap are different from each other. */
    lemma {:induction false} Surroundings(p: int, c: int)
      requires Shape() && 1 <= p < c <= |slots| && c / 2 == p
      ensures Apart(slots[p - 1], LinksOf(slots[p - 1]), slots[c - 1], LinksOf(slots[c - 1]))
      ensures slots[p - 1].parent == null <==> p == 1
      ensures Around(LinksOf(slots[p - 1])) + Around(LinksOf(slots[c - 1])) <= Nodes()
    {
      assert NodeOk(slots, p) && NodeOk(slots, c);
      SameSlot(slots, p, c); SameSlot(slots, p, p / 2); SameSlot(slots, c, p / 2);
      SameSlot(slots, p, 2 * c); SameSlot(slots, p, 2 * c + 1);
      SameSlot(slots, c, 2 * c); SameSlot(slots, c, 2 * c + 1);
      SameSlot(slots, p / 2, 2 * c); SameSlot(slots, p / 2, 2 * c + 1); SameSlot(slots, 2 * c, 2 * c + 1);
      OtherChild(p, c, if c == 2 * p then 2 * p + 1 else 2 * p);
    }

    lemma {:induction false} OtherChild(p: int, c: int, q: int)
      requires Shape() && 1 <= p < c <= |slots| && c / 2 == q / 2 == p && q != c
      ensures var t := At(slots, q);
        t != null ==> t != slots[p - 1] && t != slots[c - 1] && t != At(slots, p / 2)
                      && t != At(slots, 2 * c) && t != At(slots, 2 * c + 1)
    {
      SameSlot(slots, q, p); SameSlot(slots, q, c); SameSlot(slots, q, p / 2);
      SameSlot(slots, q, 2 * c); SameSlot(slots, q, 2 * c + 1);
    }

    /** The two nodes trade links; the child then points to the parent where it pointed to itself. */
    method Exchange(parent: Timer, child: Timer) returns (sibling: Timer?)
      requires parent != child && child.parent == parent && (parent.left == child || parent.right == child)
      modifies {parent, child}`left, {parent, child}`right, {parent, child}`parent
      ensures sibling == if old(parent.left) == child then old(parent.right) else old(parent.left)
      ensures LinksOf(parent) == Links(old(child.left), old(child.right), child)
      ensures LinksOf(child) == if old(parent.left) == child then Links(parent, sibling, old(parent.parent))
                                else Links(sibling, parent, old(parent.parent))
    {
      parent.left, parent.right, parent.parent, child.left, child.right, child.parent :=
        child.left, child.right, child.parent, parent.left, parent.right, parent.parent;
      parent.parent := child;
      if child.left == child {
        child.left := parent;
        sibling := child.right;
      } else {
        child.right := parent;
        sibling := child.left;
      }
    }

    method SwapLinks(parent: Timer, child: Timer)
      requires Apart(parent, LinksOf(parent), child, LinksOf(child))
      modifies this`min, {parent, child}`left, {parent, child}`right, {parent, child}`parent
      modifies Node(parent.parent)`left, Node(parent.parent)`right
      modifies (Node(parent.left) + Node(parent.right) + Node(child.left) + Node(child.right))`parent
      ensures LinksOf(parent) == Links(old(child.left), old(child.right), child)
      ensures LinksOf(child) == if old(parent.left) == child then Links(parent, old(parent.right), old(parent.parent))
                                else Links(old(parent.left), parent, old(parent.parent))
      ensures var sibling := if old(parent.left) == child then old(parent.right) else old(parent.left);
        sibling != null ==> sibling.parent == child
      ensures parent.left != null ==> parent.left.parent == parent
      ensures parent.right != null ==> parent.right.parent == parent
      ensures min == if child.parent == null then child else old(min)
      ensures var g := child.parent; g != null ==>
        && g.left == (if old(g.left) == parent then child else old(g.left))
        && g.right == (if old(g.left) == parent then old(g.right) else child)
    {
      var sibling := Exchange(parent, child);
      SetParent(sibling, child);
      SetParent(parent.left, parent);
      SetParent(parent.right, parent);
      ReplaceChild(child.parent, parent, child);
    }

    method SwapNodes(parent: Timer, child: Timer, ghost p: int, ghost c: int)
      requires Shape() && 1 <= p < c <= |slots| && c / 2 == p
      requires parent == slots[p - 1] && child == slots[c - 1]
      modifies this`min, Nodes()`left, Nodes()`right, Nodes()`parent
      ensures forall t :: t in slots ==>
        LinksOf(t) == Redirect(t, old(LinksOf(t)), parent, old(LinksOf(parent)), child, old(LinksOf(child)))
      ensures min == if p == 1 then child else old(min)
    {
      Surroundings(p, c);
      SwapLinks(parent, child);
    }

    /** heap_node_swap: the child moves closer to the root, the parent away from it. */
    method Swap(parent: Timer, child: Timer, ghost p: int, ghost c: int)
      requires Shape() && 1 <= p < c <= |slots| && c / 2 == p
      requires parent == slots[p - 1] && child == slots[c - 1]
      modifies this`min, this`slots, Nodes()`left, Nodes()`right, Nodes()`parent
      ensures slots == Swapped(old(slots), p, c) && Shape()
    {
      ghost var s := slots;
      assert NodeOk(s, p) && NodeOk(s, c);
      SwapNodes(parent, child, p, c);
      slots := Swapped(s, p, c);
      forall n | 1 <= n <= |slots| ensures NodeOk(slots, n) {
        assert old(NodeOk(s, n));
        if n == p {
          SwapAtParent(s, p, c);
        } else if n == c {
          SwapAtChild(s, p, c);
        } else {
          SwapElsewhere(s, p, c, n);
        }
      }
    }
  
    // ----- moving a node to its place -----

    /** A complete tree of nelts nodes in heap order. The bound variable keeps the definition folded
        for the verifier until HeapOfSize is mentioned. */
    ghost predicate Valid()
      reads this, slots`left, slots`right, slots`parent, slots`timeout, slots`startId
    {
      forall n :: n == nelts ==> HeapOfSize(n)
    }

    ghost predicate HeapOfSize(n: nat)
      reads this, slots`left, slots`right, slots`parent, slots`timeout, slots`startId
    {
      n == |slots| && Shape() && Ordered(Keys(slots))
    }

    /** Swap on the way up or down; the keys are swapped with the nodes. */
    method SwapKeys(parent: Timer, child: Timer, ghost p: int, ghost c: int)
      requires Shape() && 1 <= p < c <= |slots| && c / 2 == p
      requires parent == slots[p - 1] && child == slots[c - 1]
      modifies this`min, this`slots, Nodes()`left, Nodes()`right, Nodes()`parent
      ensures Shape() && slots == Swapped(old(slots), p, c) && Keys(slots) == Swapped(old(Keys(slots)), p, c)
      ensures multiset(slots) == old(multiset(slots)) && Nodes() == old(Nodes())
    {
      ghost var s, k := slots, Keys(slots);
      Swap(parent, child, p, c);
      assert slots == Swapped(s, p, c);
      KeysSwapped(s, k, p, c);
      SwappedSame(s, p, c);
      assert forall t :: t in slots <==> t in s;
    }

    method StepUpward(node: Timer, ghost i: int)
      requires Shape() && TooLow(Keys(slots), i) && slots[i - 1] == node
      requires node.parent != null && Less(node, node.parent)
      modifies this`min, this`slots, Nodes()`left, Nodes()`right, Nodes()`parent
      ensures i >= 2 && Shape() && TooLow(Keys(slots), i / 2) && slots[i / 2 - 1] == node
      ensures multiset(slots) == old(multiset(slots)) && Nodes() == old(Nodes())
    {
      assert NodeOk(slots, i);
      StepUp(Keys(slots), i);
      SwapKeys(node.parent, node, i / 2, i);
    }

    /** Walk up while the node is smaller than its parent. */
    method SiftUp(node: Timer, ghost start: int)
      requires Shape() && TooLow(Keys(slots), start) && slots[start - 1] == node
      modifies this`min, this`slots, Nodes()`left, Nodes()`right, Nodes()`parent
      ensures Valid() && multiset(slots) == old(multiset(slots)) && Nodes() == old(Nodes())
    {
      ghost var i := start;
      while node.parent != null && Less(node, node.parent)
        invariant Shape() && TooLow(Keys(slots), i) && slots[i - 1] == node
        invariant multiset(slots) == old(multiset(slots)) && Nodes() == old(Nodes())
        decreases i
      {
        StepUpward(node, i);
        i := i / 2;
      }
      assert NodeOk(slots, i);
      UpDone(Keys(slots), i);
    }

    /** The smallest of a node and its children. */
    method Smallest(node: Timer, ghost i: int) returns (smallest: Timer, ghost c: int)
      requires Shape() && 1 <= i <= |slots| && slots[i - 1] == node
      ensures 1 <= c <= |slots| && smallest == slots[c - 1] && (c == i || c / 2 == i)
      ensures c != i ==> KeyLess(KeyOf(smallest), KeyOf(node))
      ensures forall n :: 2 <= n <= |slots| && n / 2 == i ==> !KeyLess(KeyOf(slots[n - 1]), KeyOf(smallest))
    {
      assert NodeOk(slots, i);
      smallest, c := node, i;
      if node.left != null && Less(node.left, smallest) {
        smallest, c := node.left, 2 * i;
      }
      if node.right != null && Less(node.right, smallest) {
        smallest, c := node.right, 2 * i + 1;
      }
      assert forall n :: 2 <= n && n / 2 == i ==> n == 2 * i || n == 2 * i + 1;
    }

    method StepDownward(node: Timer, ghost i: int) returns (moved: bool, ghost c: int)
      requires Shape() && Loose(Keys(slots), i) && slots[i - 1] == node
      modifies this`min, this`slots, Nodes()`left, Nodes()`right, Nodes()`parent
      ensures Shape() && 1 <= c <= |slots| && slots[c - 1] == node
      ensures if moved then c > i && Loose(Keys(slots), c) else c == i && TooLow(Keys(slots), i)
      ensures multiset(slots) == old(multiset(slots)) && Nodes() == old(Nodes()) && |slots| == old(|slots|)
    {
      var smallest: Timer;
      smallest, c := Smallest(node, i);
      if smallest == node {
        SameSlot(slots, i, c);
        DownDone(Keys(slots), i);
        moved := false;
      } else {
        StepDown(Keys(slots), i, c);
        SwapKeys(node, smallest, i, c);
        moved := true;
      }
    }

    /** Walk down, swapping with the smallest child, while a child is smaller than the node. */
    method SiftDown(node: Timer, ghost start: int) returns (ghost i: int)
      requires Shape() && Loose(Keys(slots), start) && slots[start - 1] == node
      modifies this`min, this`slots, Nodes()`left, Nodes()`right, Nodes()`parent
      ensures Shape() && TooLow(Keys(slots), i) && slots[i - 1] == node
      ensures multiset(slots) == old(multiset(slots)) && Nodes() == old(Nodes())
    {
      i := start;
      var moved := true;
      while moved
        invariant Shape() && 1 <= i <= |slots| && slots[i - 1] == node && |slots| == old(|slots|)
        invariant if moved then Loose(Keys(slots), i) else TooLow(Keys(slots), i)
        invariant multiset(slots) == old(multiset(slots)) && Nodes() == old(Nodes())
        decreases |slots| - i, moved
      {
        moved, i := StepDownward(node, i);
      }
    }

    // ----- heap_insert -----

    method Store(p: Place, t: Timer?)
      modifies this`min, PlaceNode(p)`left, PlaceNode(p)`right
      ensures min == if p.Root? then t else old(min)
      ensures p.LeftOf? ==> p.t.left == t && p.t.right == old(p.t.right)
      ensures p.RightOf? ==> p.t.right == t && p.t.left == old(p.t.left)
    {
      match p
      case Root => min := t;
      case LeftOf(u) => u.left := t;
      case RightOf(u) => u.right := t;
    }

    method Hook(newnode: Timer, up: Timer?, p: Place)
      requires newnode !in PlaceNode(p)
      modifies this`min, PlaceNode(p)`left, PlaceNode(p)`right, newnode`parent
      ensures newnode.parent == up && min == if p.Root? then newnode else old(min)
      ensures p.LeftOf? ==> p.t.left == newnode && p.t.right == old(p.t.right)
      ensures p.RightOf? ==> p.t.right == newnode && p.t.left == old(p.t.left)
    {
      newnode.parent := up;
      Store(p, newnode);
    }

    /** Link a new node as the left-most free node of the bottom row. */
    method LinkLast(newnode: Timer)
      requires Shape() && newnode !in slots
      modifies this, Nodes()`left, Nodes()`right, newnode`left, newnode`right, newnode`parent
      ensures Shape() && slots == old(slots) + [newnode]
    {
      newnode.left, newnode.right, newnode.parent := null, null, null;
      HangLast(newnode);
    }

    method HangLast(newnode: Timer)
      requires Shape() && newnode !in slots && newnode.left == newnode.right == null
      modifies this, Nodes()`left, Nodes()`right, newnode`parent
      ensures Shape() && slots == old(slots) + [newnode]
    {
      ghost var s := slots;
      var parent, child := FindPlace(1 + nelts);
      ghost var n := |s| + 1;
      Hook(newnode, Deref(parent), child);
      nelts, slots := nelts + 1, s + [newnode];
      forall m | 1 <= m <= |slots| ensures NodeOk(slots, m) {
        AppendWanted(s, newnode, m);
        if m <= |s| {
          assert old(NodeOk(s, m));
          SameSlot(s, m, n / 2);
        }
      }
    }

    /** heap_insert. */
    method Insert(newnode: Timer)
      requires Valid() && newnode !in slots
      modifies this, Nodes()`left, Nodes()`right, Nodes()`parent, newnode`left, newnode`right, newnode`parent
      ensures Valid() && multiset(slots) == old(multiset(slots)) + multiset{newnode}
      ensures Nodes() == old(Nodes()) + {newnode}
    {
      LinkLastKey(newnode);
      SiftUp(newnode, |slots|);
    }

    /** The new node comes with its key, which may be too low for its place. */
    method LinkLastKey(newnode: Timer)
      requires Valid() && newnode !in slots
      modifies this, Nodes()`left, Nodes()`right, newnode`left, newnode`right, newnode`parent
      ensures Shape() && slots == old(slots) + [newnode] && TooLow(Keys(slots), |slots|)
      ensures multiset(slots) == old(multiset(slots)) + multiset{newnode} && Nodes() == old(Nodes()) + {newnode}
    {
      assert HeapOfSize(nelts);
      ghost var k := Keys(slots);
      LinkLast(newnode);
      assert Keys(slots) == k + [KeyOf(newnode)];
      AppendTooLow(k, KeyOf(newnode));
    }
  
    // ----- heap_remove -----

    /** Unlink the right-most node of the bottom row. */
    method UnlinkLast() returns (last: Timer)
      requires Shape() && |slots| >= 1
      modifies this, Nodes()`left, Nodes()`right
      ensures last == old(slots)[|old(slots)| - 1]
      ensures Shape() && slots == old(slots)[..|old(slots)| - 1]
    {
      ghost var s := slots;
      var _, max := FindPlace(nelts);
      ghost var n := |s|;
      nelts := nelts - 1;
      last := Deref(max);
      Store(max, null);
      slots := s[..n - 1];
      assert slots + [s[n - 1]] == s;
      forall m | 1 <= m <= |slots| ensures NodeOk(slots, m) {
        AppendWanted(slots, s[n - 1], m);
        assert old(NodeOk(s, m));
        SameSlot(s, m, n / 2);
      }
    }

    /** The links of `node` pass to `child`, and its neighbours point to `child`. */
    method TakeOver(node: Timer, child: Timer, ghost r: int)
      requires Shape() && 1 <= r <= |slots| && slots[r - 1] == node && child !in slots
      modifies this`min, this`slots, Nodes()`left, Nodes()`right, Nodes()`parent
      modifies child`left, child`right, child`parent
      ensures Shape() && slots == old(slots)[r - 1 := child]
    {
      ghost var s := slots;
      assert NodeOk(s, r);
      Neighbours(r);
      PassLinks(node, child);
      slots := s[r - 1 := child];
      forall m | 1 <= m <= |slots| ensures NodeOk(slots, m) {
        ReplaceWanted(s, child, r, m);
        assert old(NodeOk(s, m));
        if m != r {
          SameSlot(s, m, 2 * r); SameSlot(s, m, 2 * r + 1); SameSlot(s, m, r / 2); SameSlot(s, m, r);
        }
      }
    }

    /** The pointers that change hands. */
    method PassLinks(node: Timer, child: Timer)
      requires node in slots && child !in slots
      requires forall t :: t in Node(node.left) + Node(node.right) + Node(node.parent) ==> t in slots && t != node
      requires node.parent != null ==> node.parent != node.left && node.parent != node.right
      requires node.left != null ==> node.left != node.right
      modifies this`min, Nodes()`left, Nodes()`right, Nodes()`parent
      modifies child`left, child`right, child`parent
      ensures slots == old(slots) && min == if old(node.parent) == null then child else old(min)
      ensures LinksOf(child) == old(LinksOf(node))
      ensures forall t :: t in slots ==>
        t.parent == if t == old(node.left) || t == old(node.right) then child else old(t.parent)
      ensures forall t :: t in slots ==>
        t.left == if t == old(node.parent) && old(t.left) == node then child else old(t.left)
      ensures forall t :: t in slots ==>
        t.right == if t == old(node.parent) && old(t.left) != node then child else old(t.right)
    {
      child.left, child.right, child.parent := node.left, node.right, node.parent;
      SetParent(child.left, child);
      SetParent(child.right, child);
      ReplaceChild(node.parent, node, child);
    }

    /** The neighbours of a slot are in the heap and different from it and from each other. */
    lemma {:induction false} Neighbours(r: int)
      requires Shape() && 1 <= r <= |slots|
      ensures var t := slots[r - 1];
        && t.left != t && t.right != t && t.parent != t
        && (t.left != null ==> t.left in Nodes() && t.left != t.right && t.left != t.parent)
        && (t.right != null ==> t.right in Nodes() && t.right != t.parent)
        && (t.parent != null ==> t.parent in Nodes())
        && (t.parent == null <==> r == 1)
    {
      assert NodeOk(slots, r);
      SameSlot(slots, r, 2 * r); SameSlot(slots, r, 2 * r + 1); SameSlot(slots, r, r / 2);
      SameSlot(slots, 2 * r, 2 * r + 1); SameSlot(slots, 2 * r, r / 2); SameSlot(slots, 2 * r + 1, r / 2);
    }

    /** Put the unlinked node in place of the one to be deleted and restore the order. */
    method Refill(node: Timer, child: Timer, ghost r: int, ghost k: seq<Key>)
      requires Shape() && 1 <= r <= |slots| && slots[r - 1] == node && child !in slots
      requires Ordered(k) && |k| == |slots| + 1 && Keys(slots) == k[..|k| - 1]
      modifies this`min, this`slots, Nodes()`left, Nodes()`right, Nodes()`parent
      modifies child`left, child`right, child`parent
      ensures Valid() && multiset(slots) == multiset(old(slots)[r - 1 := child])
    {
      TakeOver(node, child, r);
      assert Keys(slots) == k[..|k| - 1][r - 1 := KeyOf(child)];
      ReplaceLoose(k, KeyOf(child), r);
      ghost var i := SiftDown(child, r);
      SiftUp(child, i);
    }

    /** heap_remove. */
    method Remove(node: Timer?)
      requires Valid() && (slots != [] ==> node != null && node in slots)
      modifies this, Nodes()`left, Nodes()`right, Nodes()`parent
      ensures Valid()
      ensures old(slots) == [] ==> slots == []
      ensures old(slots) != [] ==> multiset(slots) == old(multiset(slots)) - multiset{node}
      ensures old(slots) != [] ==> Nodes() == old(Nodes()) - {node}
    {
      assert HeapOfSize(nelts);
      if nelts == 0 {
        return;
      }
      ghost var s := slots;
      ghost var j :| 0 <= j < |s| && s[j] == node;
      ghost var r := RemoveAt(node, j);
      RefilledLoses(s, j, r);
      NodesWithout(slots, s, node);
    }

    /** The rest of heap_remove, for the node in slot j + 1. */
    method RemoveAt(node: Timer, ghost j: int) returns (ghost r: seq<Timer>)
      requires Valid() && 0 <= j < |slots| && slots[j] == node
      modifies this, Nodes()`left, Nodes()`right, Nodes()`parent
      ensures Valid() && IsRefilled(old(slots), j, r) && multiset(slots) == multiset(r)
    {
      ghost var s, k := slots, Keys(slots);
      var child := UnlinkLastKey();
      LastOrInner(s, j, node, child);
      r := Refilled(s, j);
      if child == node {
        // Clearing the last link has already cleared the root pointer if this was the root.
        assert child != min;
      } else {
        Refill(node, child, j + 1, k);
      }
    }

    /** The right-most node of the bottom row goes with its key; what is left is a heap. */
    method UnlinkLastKey() returns (last: Timer)
      requires Valid() && |slots| >= 1
      modifies this, Nodes()`left, Nodes()`right
      ensures last == old(slots)[|old(slots)| - 1]
      ensures Valid() && Shape() && slots == old(slots)[..|old(slots)| - 1]
      ensures Ordered(old(Keys(slots))) && Distinct(old(slots))
      ensures Keys(slots) == old(Keys(slots))[..|old(slots)| - 1]
      ensures Nodes() <= old(Nodes()) && last in old(Nodes())
    {
      assert HeapOfSize(nelts);
      ghost var k := Keys(slots);
      last := UnlinkLast();
      assert last in old(slots);
      assert Keys(slots) == k[..|k| - 1];
      PrefixOrdered(k, |k| - 1);
    }

    /** heap_dequeue. */
    method Dequeue()
      requires Valid()
      modifies this, Nodes()`left, Nodes()`right, Nodes()`parent
      ensures Valid()
      ensures old(slots) == [] ==> slots == []
      ensures old(slots) != [] ==> old(min) != null && Nodes() == old(Nodes()) - {old(min)}
    {
      assert HeapOfSize(nelts);
      Remove(min);
    }

    /** heap_min: null exactly when the heap is empty, otherwise no node comes before it. */
    method Min() returns (t: Timer?)
      requires Valid()
      ensures t == null <==> slots == []
      ensures t != null ==> t in slots && forall u :: u in slots ==> !Less(u, t)
    {
      assert HeapOfSize(nelts);
      t := min;
      forall u | u in slots ensures !Less(u, slots[0]) {
        var j :| 0 <= j < |slots| && slots[j] == u;
        RootIsLeast(Keys(slots), j + 1);
      }
    }
  }

  /** Cutting off the last element and putting it in place of the r-th removes the r-th. */
  lemma {:induction false} CutMultiset(s: seq<Timer>, r: int)
    requires Distinct(s) && 1 <= r <= |s|
    ensures r == |s| ==> multiset(s[..|s| - 1]) == multiset(s) - multiset{s[r - 1]}
    ensures r < |s| ==> multiset(s[..|s| - 1][r - 1 := s[|s| - 1]]) == multiset(s) - multiset{s[r - 1]}
    ensures s[|s| - 1] !in s[..|s| - 1]
  {
    var n := |s| - 1;
    var front, last := s[..n], s[n];
    assert s == front + [last];
    if r <= n { ReplaceMultiset(front, last, r - 1); }
  }

  lemma {:induction false} ReplaceMultiset(front: seq<Timer>, last: Timer, j: int)
    requires 0 <= j < |front|
    ensures multiset(front[j := last]) == multiset(front + [last]) - multiset{front[j]}
  {
    var a, b := front[..j], front[j + 1..];
    assert front == a + [front[j]] + b && front[j := last] == a + [last] + b;
    Parts(a, front[j], b);
    Parts(a, last, b);
    Exchanged(multiset(a) + multiset(b), front[j], last);
  }

  lemma {:induction false} Parts(a: seq<Timer>, x: Timer, b: seq<Timer>)
    ensures multiset(a + [x] + b) == multiset(a) + multiset(b) + multiset{x}
  {
  }

  lemma {:induction false} Exchanged(m: multiset<Timer>, x: Timer, y: Timer)
    ensures m + multiset{x} + multiset{y} - multiset{x} == m + multiset{y}
  {
  }

  /** The last node goes, or takes the place of the one at j. */
  ghost function Refilled(s: seq<Timer>, j: int): (r: seq<Timer>)
    requires 0 <= j < |s|
  {
    var front := s[..|s| - 1];
    if j == |s| - 1 then front else front[j := s[|s| - 1]]
  }

  /** Unfolds where Refilled is named. */
  ghost predicate IsRefilled(s: seq<Timer>, j: int, r: seq<Timer>) {
    forall i :: i == j && 0 <= i < |s| ==> r == Refilled(s, i)
  }

  lemma {:induction false} RefilledLoses(s: seq<Timer>, j: int, r: seq<Timer>)
    requires Distinct(s) && 0 <= j < |s| && IsRefilled(s, j, r)
    ensures multiset(r) == multiset(s) - multiset{s[j]}
  {
    assert r == Refilled(s, j);
    CutMultiset(s, j + 1);
  }

  lemma {:induction false} LastOrInner(s: seq<Timer>, j: int, node: Timer, last: Timer)
    requires Distinct(s) && 0 <= j < |s| && s[j] == node && s[|s| - 1] == last
    ensures last == node <==> j == |s| - 1
    ensures last !in s[..|s| - 1]
  {
    SameSlot(s, j + 1, |s|);
    CutMultiset(s, j + 1);
  }

  lemma {:induction false} CountDistinct(s: seq<Timer>, x: Timer)
    requires Distinct(s)
    ensures multiset(s)[x] <= 1
  {
    if s != [] {
      CountDistinct(s[..|s| - 1], x);
      assert s == s[..|s| - 1] + [s[|s| - 1]];
      if s[|s| - 1] == x { assert x !in s[..|s| - 1]; }
    }
  }

  lemma {:induction false} NodesWithout(a: seq<Timer>, b: seq<Timer>, x: Timer)
    requires Distinct(b) && multiset(a) == multiset(b) - multiset{x}
    ensures (set t | t in a) == (set t | t in b) - {x}
  {
    CountDistinct(b, x);
    forall t ensures t in a <==> t in b && t != x {
      assert t in a <==> multiset(a)[t] > 0;
      assert t in b <==> multiset(b)[t] > 0;
    }
  }

  lemma {:induction false} KeysSwapped(s: seq<Timer>, k: seq<Key>, p: int, c: int)
    requires 1 <= p < c <= |s| == |k| && forall i :: 0 <= i < |s| ==> k[i] == KeyOf(s[i])
    ensures Keys(Swapped(s, p, c)) == Swapped(k, p, c)
  {
  }

  lemma {:induction false} SwappedSame<T>(s: seq<T>, p: int, c: int)
    requires 1 <= p < c <= |s|
    ensures multiset(Swapped(s, p, c)) == multiset(s)
    ensures forall x :: x in Swapped(s, p, c) <==> x in s
  {
    var t := Swapped(s, p, c);
    assert multiset(t) == multiset(s);
    assert forall x :: x in t <==> x in multiset(t);
    assert forall x :: x in s <==> x in multiset(s);
  }
}
