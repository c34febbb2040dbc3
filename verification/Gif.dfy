/** The frame schedule of an animated image: a uniform frame rate that reproduces every delay. */
module Gif {
  import opened Common
  import opened Arithmetic

  predicate Divides(d: int, n: int)
    requires d > 0
  {
    n % d == 0
  }

  predicate AllPositive(s: seq<int>) { forall i :: 0 <= i < |s| ==> s[i] > 0 }

  predicate DividesAll(d: int, s: seq<int>)
    requires d > 0
  {
    forall i :: 0 <= i < |s| ==> Divides(d, s[i])
  }

  function Abs(n: int): (a: nat) { if n < 0 then -n else n }

  /** d is, up to its sign, the greatest common divisor of s: its divisors are the common divisors of s. */
  ghost predicate IsGcd(d: int, s: seq<int>) {
    d != 0 && forall c: int :: c > 0 ==> (Divides(c, d) <==> DividesAll(c, s))
  }

  lemma {:induction false} IsGcdMeans(d: int, s: seq<int>)
    requires IsGcd(d, s)
    ensures DividesAll(Abs(d), s)
    ensures forall c: int :: c > 0 && DividesAll(c, s) ==> c <= Abs(d)
  {
    Opposite(Abs(d), d);
    forall c: int | c > 0 && DividesAll(c, s) ensures c <= Abs(d) {
      Opposite(c, d);
      assert Divides(c, Abs(d));
      if Abs(d) < c { DivUnique(Abs(d), c, 0, Abs(d)); }
    }
  }

  // ----- divisibility -----

  lemma {:induction false} Opposite(c: int, n: int)
    requires c > 0
    ensures Divides(c, n) <==> Divides(c, -n)
    ensures Divides(c, c)
  {
    DivParts(n, c);
    DivParts(-n, c);
    if Divides(c, n) { DivUnique(-n, c, -(n / c), 0); }
    if Divides(c, -n) { DivUnique(n, c, -(-n / c), 0); }
    DivUnique(c, c, 1, 0);
  }

  /** Adding a multiple of a multiple of c does not change divisibility by c. */
  lemma {:induction false} Combined(c: int, b: int, k: int, r: int, a: int)
    requires c > 0 && Divides(c, b) && a == k * b + r
    ensures Divides(c, a) <==> Divides(c, r)
  {
    var m := k * (b / c);
    DivParts(b, c);
    assert k * b == m * c by { MulAssociates(k, b / c, c); }
    DivParts(a, c);
    DivParts(r, c);
    if Divides(c, a) {
      assert r == (a / c - m) * c by { assert (a / c - m) * c == a / c * c - m * c; }
      DivUnique(r, c, a / c - m, 0);
    }
    if Divides(c, r) {
      assert a == (m + r / c) * c by { assert (m + r / c) * c == m * c + r / c * c; }
      DivUnique(a, c, m + r / c, 0);
    }
  }

  /** The remainder of a division that truncates toward zero. */
  function Rem(a: int, b: int): (r: int)
    requires b != 0
  {
    if a >= 0 then a % Abs(b) else -(-a % Abs(b))
  }

  lemma {:induction false} RemIs(a: int, b: int) returns (k: int)
    requires b != 0
    ensures a == k * b + Rem(a, b) && Abs(Rem(a, b)) < Abs(b)
    ensures a > 0 ==> Rem(a, b) >= 0
  {
    var q := Abs(a) / Abs(b);
    DivParts(Abs(a), Abs(b));
    k := if (a >= 0) == (b > 0) then q else -q;
    assert k * b == if a >= 0 then q * Abs(b) else -(q * Abs(b));
  }

  /** c divides two numbers exactly when it divides one of them and their remainder. */
  lemma {:induction false} RemainderDivisors(c: int, a: int, b: int)
    requires b != 0 && c > 0
    ensures Divides(c, a) && Divides(c, b) <==> Divides(c, b) && Divides(c, Rem(a, b))
  {
    var k := RemIs(a, b);
    if Divides(c, b) { Combined(c, b, k, Rem(a, b), a); }
  }

  // ----- gcdForPair, gcdForArray -----

  /** Euclid's loop; a missing number is neutral. Dividing by zero stops the program: that is None, and happens exactly
      when the smaller of the two numbers is zero. */
  method GcdForPair(a0: Option<int>, b0: Option<int>) returns (d: Option<int>)
    ensures a0.Some? && b0.Some? ==> (d.None? <==> (if a0.value < b0.value then a0.value else b0.value) == 0)
    ensures a0.Some? && b0.Some? && d.Some? ==> IsGcd(d.value, [a0.value, b0.value])
    ensures a0.Some? && b0.Some? && a0.value > 0 && b0.value > 0 ==> d.Some? && d.value > 0
    ensures a0.None? && b0.Some? ==> d == b0
    ensures a0.Some? && b0.None? ==> d == a0
    ensures a0.None? && b0.None? ==> d == Some(0)
  {
    if b0.None? || a0.None? {
      if b0.Some? {
        return b0;
      } else if a0.Some? {
        return a0;
      } else {
        return Some(0);
      }
    }
    var a, b := a0.value, b0.value;
    ghost var pair := [a, b];
    assert forall c: int :: c > 0 ==> (DividesAll(c, pair) <==> Divides(c, pair[0]) && Divides(c, pair[1]));
    if a < b {
      a, b := b, a;
    }
    if b == 0 {
      return None;
    }
    while true
      invariant b != 0 && (a0.value > 0 && b0.value > 0 ==> a > 0 && b > 0)
      invariant forall c: int :: c > 0 ==> (Divides(c, a) && Divides(c, b) <==> DividesAll(c, pair))
      decreases Abs(b)
    {
      var rest := Rem(a, b);
      ghost var k := RemIs(a, b);
      forall c: int | c > 0 ensures Divides(c, a) && Divides(c, b) <==> Divides(c, b) && Divides(c, rest) {
        RemainderDivisors(c, a, b);
      }
      if rest == 0 {
        ZeroDivided();
        return Some(b);
      }
      a := b;
      b := rest;
    }
  }

  lemma {:induction false} ZeroDivided()
    ensures forall c: int :: c > 0 ==> Divides(c, 0)
  {
    forall c: int | c > 0 ensures Divides(c, 0) { DivUnique(0, c, 0, 0); }
  }

  lemma {:induction false} GcdExtends(s: seq<int>, g: int, v: int, d: int)
    requires IsGcd(g, s) && IsGcd(d, [v, g])
    ensures IsGcd(d, s + [v])
  {
    var both, longer := [v, g], s + [v];
    forall c: int | c > 0 ensures Divides(c, d) <==> DividesAll(c, longer) {
      assert DividesAll(c, both) <==> Divides(c, v) && Divides(c, g) by { assert both[0] == v && both[1] == g; }
      assert DividesAll(c, longer) <==> DividesAll(c, s) && Divides(c, v) by {
        assert longer[|s|] == v && forall i :: 0 <= i < |s| ==> longer[i] == s[i];
      }
    }
  }

  /** Folding from the first number, which is then visited again. An empty list gives 1. */
  method GcdForArray(values: seq<int>) returns (d: Option<int>)
    ensures values == [] ==> d == Some(1)
    ensures values != [] && d.Some? ==> IsGcd(d.value, values)
    ensures d.None? ==> 0 in values
    ensures (forall i :: 0 <= i < |values| ==> values[i] >= 0) && 0 in values ==> d.None?
    ensures AllPositive(values) ==> d.Some? && d.value > 0
  {
    if values == [] {
      return Some(1);
    }
    var gcd := values[0];
    for i := 0 to |values|
      invariant i == 0 ==> gcd == values[0]
      invariant i > 0 ==> IsGcd(gcd, values[..i])
      invariant i > 0 && (forall k :: 0 <= k < |values| ==> values[k] >= 0) ==> gcd > 0 && 0 !in values[..i]
    {
      ghost var g := gcd;
      d := GcdForPair(Some(values[i]), Some(gcd));
      assert values[i] in values;
      if d.None? {
        SmallerZero(values, i, g);
        return;
      }
      gcd := d.value;
      assert values[..i + 1] == values[..i] + [values[i]];
      if i == 0 {
        Twice(gcd, g, values[..1]);
      } else {
        GcdExtends(values[..i], g, values[i], gcd);
      }
    }
    assert values[..|values|] == values;
    d := Some(gcd);
  }

  /** A running divisor is never zero, so a zero is one of the numbers. */
  lemma {:induction false} SmallerZero(values: seq<int>, i: nat, g: int)
    requires i < |values| && (i == 0 ==> g == values[0]) && (i > 0 ==> g != 0)
    requires (if values[i] < g then values[i] else g) == 0
    ensures 0 in values
  {
  }

  lemma {:induction false} Twice(d: int, v: int, s: seq<int>)
    requires IsGcd(d, [v, v]) && s == [v]
    ensures IsGcd(d, s)
  {
    forall c: int | c > 0 ensures DividesAll(c, [v, v]) <==> DividesAll(c, s) {
      var both := [v, v];
      assert both[0] == v && both[1] == v && s[0] == v;
    }
  }

  // ----- the schedule -----

  function Sum(s: seq<int>): (r: int)
    ensures AllPositive(s) ==> r >= 0
  {
    if s == [] then 0 else Sum(s[..|s| - 1]) + s[|s| - 1]
  }

  lemma {:induction false} SumStep(s: seq<int>, i: nat)
    requires i < |s|
    ensures Sum(s[..i + 1]) == Sum(s[..i]) + s[i]
  {
    assert s[..i + 1][..i] == s[..i];
  }

  /** At every millisecond t of the first n delays, the frame on screen at g milliseconds a frame is
      the image whose delay covers t. */
  ghost predicate Shows<T(!new)>(frames: seq<T>, images: seq<T>, delays: seq<int>, g: int, n: nat)
    requires n <= |delays| == |images| && g > 0
  {
    && |frames| * g == Sum(delays[..n])
    && forall i, t :: 0 <= i < n && Sum(delays[..i]) <= t < Sum(delays[..i + 1]) ==>
         0 <= t / g < |frames| && frames[t / g] == images[i]
  }

  function Repeat<T>(x: T, k: nat): (s: seq<T>) { seq(k, _ => x) }

  lemma {:induction false} Distribute(a: int, b: int, g: int)
    ensures (a + b) * g == a * g + b * g
  {
  }

  /** Appending a block for the next delay. */
  lemma {:induction false} BlockShows<T(!new)>(frames: seq<T>, images: seq<T>, delays: seq<int>, g: int, n: nat)
    requires n < |delays| == |images| && AllPositive(delays) && g > 0 && Divides(g, delays[n])
    requires Shows(frames, images, delays, g, n)
    ensures Shows(frames + Repeat(images[n], delays[n] / g), images, delays, g, n + 1)
  {
    var k := delays[n] / g;
    var all := frames + Repeat(images[n], k);
    SumStep(delays, n);
    assert k * g == delays[n];
    Distribute(|frames|, k, g);
    forall i, t | 0 <= i < n + 1 && Sum(delays[..i]) <= t < Sum(delays[..i + 1])
      ensures 0 <= t / g < |all| && all[t / g] == images[i]
    {
      if i == n {
        BlockAt(frames, images[n], k, g, t);
      } else {
        assert all[t / g] == frames[t / g];
      }
    }
  }

  /** During the block its image is shown. */
  lemma {:induction false} BlockAt<T>(frames: seq<T>, image: T, k: nat, g: int, t: int)
    requires g > 0 && |frames| * g <= t < (|frames| + k) * g
    ensures var all := frames + Repeat(image, k); 0 <= t / g < |all| && all[t / g] == image
  {
    DivBetween(t, g, |frames|, |frames| + k);
  }

  /** The schedule of animatedImageWithSource: the whole lasts the sum of the delays, and shown at
      duration / |frames| milliseconds a frame, image i is on screen exactly during its delay. */
  method Schedule<T(!new)>(images: seq<T>, delays: seq<int>) returns (frames: seq<T>, duration: int, gcd: int)
    requires |images| == |delays| && AllPositive(delays)
    ensures duration == Sum(delays)
    ensures delays != [] ==> IsGcd(gcd, delays)
    ensures gcd > 0 && |frames| * gcd == duration
    ensures Shows(frames, images, delays, gcd, |delays|)
  {
    duration := 0;
    for i := 0 to |delays|
      invariant duration == Sum(delays[..i])
    {
      SumStep(delays, i);
      duration := duration + delays[i];
    }
    assert delays[..|delays|] == delays;
    var divisor := GcdForArray(delays);
    gcd := divisor.value;
    if delays != [] { IsGcdMeans(gcd, delays); }
    frames := [];
    for i := 0 to |delays|
      invariant Shows(frames, images, delays, gcd, i)
    {
      var frameCount := delays[i] / gcd;
      ghost var before := frames;
      for j := 0 to frameCount
        invariant frames == before + Repeat(images[i], j)
      {
        frames := frames + [images[i]];
        assert Repeat(images[i], j) + [images[i]] == Repeat(images[i], j + 1);
      }
      BlockShows(before, images, delays, gcd, i);
    }
  }
}
