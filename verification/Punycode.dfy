/** libuv's Punycode encoder for one label, over code points. Unsigned arithmetic is 32 bits wide:
    the sums that the code computes are shown to fit. */
module Punycode {
  import opened Common
  import opened PunycodeSpec

  /** Output stops silently at the end of the buffer. */
  function Cut(t: string, cap: nat): (r: string)
    ensures |r| <= cap && (|t| <= cap ==> r == t)
  {
    if |t| <= cap then t else t[..cap]
  }

  method Put(d: string, c: char, cap: nat, ghost t: string) returns (d': string)
    requires d == Cut(t, cap)
    ensures d' == Cut(t + [c], cap)
  {
    d' := d;
    if |d| < cap {
      d' := d + [c];
    }
  }

  method Threshold(k: nat, bias: nat) returns (threshold: nat)
    ensures threshold == Clamp(k, bias)
  {
    threshold := 1;
    if k > bias {
      threshold := k - bias;
    }
    if threshold > 26 {
      threshold := 26;
    }
  }

  lemma {:induction false} DigitsStep(q: nat, k: nat, bias: nat, u: string)
    requires q >= Clamp(k, bias)
    ensures var t := Clamp(k, bias);
      var x, y := q - t, 36 - t;
      && x / y >= 0 && 0 <= t + x % y < 36
      && u + Digits(q, k, bias) == u + [Alphabet(t + x % y)] + Digits(x / y, k + 36, bias)
  {
    var t := Clamp(k, bias);
    DivideRest(q - t, 36 - t);
    Regroup(u, [Alphabet(t + (q - t) % (36 - t))], Digits((q - t) / (36 - t), k + 36, bias));
  }

  /** One digit of q and what is left of it. */
  method SplitDigit(q: nat, threshold: nat, ghost k: nat, ghost bias: nat, ghost u: string)
    returns (digit: char, rest: nat)
    requires threshold == Clamp(k, bias) <= q
    ensures rest < q && u + Digits(q, k, bias) == u + [digit] + Digits(rest, k + 36, bias)
  {
    var x, y := q - threshold, 36 - threshold;
    DivideRest(x, y);
    DigitsStep(q, k, bias, u);
    digit, rest := Alphabet(threshold + x % y), x / y;
  }

  function Ten(m: nat): (n: nat) { if m == 0 then 1 else 10 * Ten(m - 1) }

  /** Every digit but the last takes at least a factor of ten off the number. */
  lemma {:induction false} DigitsAtMost(q: nat, k: nat, bias: nat, m: nat)
    requires q < Ten(m)
    ensures |Digits(q, k, bias)| <= m + 1
    decreases m
  {
    var t := Clamp(k, bias);
    if q >= t {
      var x, y := q - t, 36 - t;
      DivideRest(x, y);
      var rest := x / y;
      TimesTen(rest, y);
      DigitsAtMost(rest, k + 36, bias, m - 1);
    }
  }

  lemma {:induction false} TimesTen(n: nat, y: nat)
    requires y >= 10
    ensures 10 * n <= y * n
  {
    assert (y - 10) * n >= 0;
  }

  lemma {:induction false} ElevenDigits(delta: nat, bias: nat)
    requires delta < TWO_32
    ensures |Digits(delta, 36, bias)| <= 11
  {
    assert Ten(3) == 1000 && Ten(6) == 1_000_000 && Ten(9) == 1_000_000_000 by {
      assert Ten(2) == 10 * Ten(1) && Ten(5) == 10 * Ten(4) && Ten(8) == 10 * Ten(7);
    }
    DigitsAtMost(delta, 36, bias, 10);
  }

  /** The digit loop: at most eleven digits, so that k stays small. */
  method WriteNumber(delta: nat, bias: nat, d: string, cap: nat, ghost t: string) returns (d': string)
    requires delta < TWO_32 && d == Cut(t, cap)
    ensures d' == Cut(t + Digits(delta, 36, bias), cap)
  {
    d' := d;
    ghost var u := t;
    var k: nat, q: nat := 36, delta;
    ElevenDigits(delta, bias);
    while true
      invariant d' == Cut(u, cap) && u + Digits(q, k, bias) == t + Digits(delta, 36, bias)
      invariant |t| <= |u| && k == 36 * (1 + |u| - |t|) <= 396
      decreases q
    {
      var threshold := Threshold(k, bias);
      if q < threshold {
        break;
      }
      var digit;
      digit, q := SplitDigit(q, threshold, k, bias, u);
      d' := Put(d', digit, cap, u);
      u := u + [digit];
      k := k + 36;
    }
    d' := Put(d', Alphabet(q), cap, u);
  }

  /** The loop of the bias adaptation. */
  method ScaleDown(delta0: nat) returns (bias: nat)
    ensures bias == Reduce(delta0, 0)
  {
    var delta: nat := delta0;
    bias := 0;
    while delta > 35 * 26 / 2
      invariant Reduce(delta, bias) == Reduce(delta0, 0)
    {
      delta := delta / 35;
      bias := bias + 36;
    }
    bias := bias + 36 * delta / (delta + 38);
  }

  /** The new bias after `h` code points. */
  method NextBias(delta0: nat, h: nat, first: bool) returns (bias: nat)
    requires h > 0 && delta0 < TWO_32
    ensures bias == Adapt(delta0, h, first)
  {
    var delta: nat := delta0 / 2;
    if first {
      delta := delta / 350;
    }
    assert delta == if first then delta0 / 700 else delta0 / 2;
    DivideRest(delta, h);
    assert delta + delta / h < TWO_32;
    bias := ScaleDown(delta + delta / h);
  }

  /** The search for the next code point to handle. */
  method FindLeast(s: seq<nat>, n: nat) returns (m: nat)
    ensures m == Least(s, n)
  {
    m := NO_CODE_POINT;
    for i := 0 to |s|
      invariant m == Least(s[..i], n)
    {
      assert s[..i + 1][..i] == s[..i];
      if s[i] >= n && s[i] < m {
        m := s[i];
      }
    }
    assert s[..|s|] == s;
  }

  // ----- a label -----

  predicate Wide(s: seq<nat>) { |Below(s, 128)| < |s| }

  function LabelText(s: seq<nat>): (t: string)
    requires ValidLabel(s) && (Wide(s) ==> Encoded(s).Text?)
  {
    if Wide(s) then "xn--" + Encoded(s).s else Chars(s)
  }

  /** The first loop: `ok` is false on malformed text. */
  method CountAscii(s: seq<nat>) returns (ok: bool, h: nat, todo: nat)
    ensures ok <==> NO_CODE_POINT !in s
    ensures ok ==> h == |Below(s, 128)| && todo == |s| - h
  {
    ok, h, todo := true, 0, 0;
    for i := 0 to |s|
      invariant h == |Below(s[..i], 128)| && todo == i - h
      invariant NO_CODE_POINT !in s[..i]
    {
      assert s[..i + 1][..i] == s[..i];
      if s[i] < 128 {
        h := h + 1;
      } else if s[i] == NO_CODE_POINT {
        ok := false;
        return;
      } else {
        todo := todo + 1;
      }
    }
    assert s[..|s|] == s;
  }

  lemma {:induction false} CharsStep(s: seq<nat>, i: nat, t: string)
    requires i < |s|
    ensures s[i] < 128 ==> |Below(s[..i + 1], 128)| == |Below(s[..i], 128)| + 1
    ensures s[i] < 128 ==> t + Chars(Below(s[..i + 1], 128)) == t + Chars(Below(s[..i], 128)) + [s[i] as char]
    ensures s[i] >= 128 ==> Below(s[..i + 1], 128) == Below(s[..i], 128)
  {
    assert s[..i + 1][..i] == s[..i];
  }

  /** The loop that copies the ASCII code points and stops after the last. */
  method CopyAscii(s: seq<nat>, h: nat, d: string, cap: nat, ghost t: string) returns (d': string)
    requires h == |Below(s, 128)| && d == Cut(t, cap)
    ensures d' == Cut(t + Chars(Below(s, 128)), cap)
  {
    d' := d;
    var x := 0;
    assert t + Chars(Below(s[..0], 128)) == t;
    for i := 0 to |s|
      invariant x == |Below(s[..i], 128)| && d' == Cut(t + Chars(Below(s[..i], 128)), cap)
    {
      CharsStep(s, i, t);
      if s[i] > 127 {
        continue;
      }
      d' := Put(d', s[i] as char, cap, t + Chars(Below(s[..i], 128)));
      x := x + 1;
      if x == h {
        NothingLeft(s, i + 1);
        return;
      }
    }
    assert s[..|s|] == s;
  }

  lemma {:induction false} NothingLeft(s: seq<nat>, i: nat)
    requires i <= |s| && |Below(s[..i], 128)| == |Below(s, 128)|
    ensures Below(s[..i], 128) == Below(s, 128)
  {
    assert s == s[..i] + s[i..];
    BelowAppend(s[..i], s[i..], 128);
  }

  /** The state of the encoder: delta, bias, the number of code points handled, and the output. */
  datatype State = State(delta: nat, bias: nat, h: nat, first: bool, d: string)

  ghost function Rest(s: seq<nat>, n: nat, j: nat, st: State): (t: Text)
    requires ValidLabel(s) && n <= MAX_CODE_POINT && j <= |s|
  {
    Scan(s, n, j, st.delta, st.bias, st.h, st.first)
  }

  lemma {:induction false} AfterTwice(t: Text, a: string, b: string, c: string)
    ensures t.After(b).After(a) == t.After(a + b)
    ensures c + a + b == c + (a + b)
  {
    if t.Text? {
      assert a + (b + t.s) == a + b + t.s;
    }
  }

  /** The body of the scan for a code point equal to n: write delta, adapt the bias. */
  method Handle(s: seq<nat>, n: nat, j: nat, st: State, cap: nat, ghost t: string) returns (st': State)
    requires ValidLabel(s) && n <= MAX_CODE_POINT && j < |s| && s[j] == n && st.delta < TWO_32 && st.d == Cut(t, cap)
    ensures st'.delta == 0 && st'.h == st.h + 1 && st'.d == Cut(t + Digits(st.delta, 36, st.bias), cap)
    ensures Rest(s, n, j, st) == Rest(s, n, j + 1, st').After(Digits(st.delta, 36, st.bias))
  {
    var d := WriteNumber(st.delta, st.bias, st.d, cap, t);
    var h := st.h + 1;
    var bias := NextBias(st.delta, h, st.first);
    st' := State(0, bias, h, false, d);
  }

  /** The scan moves past other code points. */
  lemma {:induction false} RestSkips(s: seq<nat>, n: nat, j: nat, st: State)
    requires ValidLabel(s) && n <= MAX_CODE_POINT && j < |s| && s[j] != n
    requires s[j] < n ==> st.delta + 1 != TWO_32
    ensures Rest(s, n, j, st) == Rest(s, n, j + 1, if s[j] < n then st.(delta := st.delta + 1) else st)
  {
  }

  lemma {:induction false} RestEnds(s: seq<nat>, n: nat, st: State)
    requires ValidLabel(s) && n <= MAX_CODE_POINT
    ensures Rest(s, n, |s|, st) == Pass(s, n + 1, st.delta + 1, st.bias, st.h, st.first)
    ensures Inserted(s, n, |s|) == Below(s, n + 1) && Inserted(s, n, 0) == Below(s, n)
  {
    assert s[..|s|] == s && s[|s|..] == [] && s[..0] == [] && s[0..] == s;
  }

  /** One position of a pass. */
  method ScanOne(s: seq<nat>, n: nat, j: nat, start: State, cap: nat, ghost t: string, ghost before: string)
    returns (ok: bool, st: State, ghost u: string)
    requires ValidLabel(s) && n <= MAX_CODE_POINT && j < |s| && start.delta < TWO_32
    requires start.h == |Inserted(s, n, j)| && start.d == Cut(t + before, cap) && (n in s[..j] ==> start.delta <= j)
    ensures !ok ==> Rest(s, n, j, start).Overflow?
    ensures ok ==> st.delta < TWO_32 && st.h == |Inserted(s, n, j + 1)| && st.d == Cut(t + u, cap)
    ensures ok ==> (n in s[..j + 1] ==> st.delta <= j + 1)
    ensures ok ==> Rest(s, n, j, start).After(before) == Rest(s, n, j + 1, st).After(u)
  {
    ok, st, u := true, start, before;
    HandledStep(s, n, j);
    if s[j] < n {
      if st.delta + 1 == TWO_32 {
        ok := false;
        return;
      }
      RestSkips(s, n, j, st);
      st := st.(delta := st.delta + 1);
    } else if s[j] == n {
      st, u := HandleAt(s, n, j, st, cap, t, u);
    } else {
      RestSkips(s, n, j, st);
    }
  }

  /** The number of code points handled, and whether n has been met. */
  lemma {:induction false} HandledStep(s: seq<nat>, n: nat, j: nat)
    requires j < |s|
    ensures |Inserted(s, n, j + 1)| == |Inserted(s, n, j)| + if s[j] == n then 1 else 0
    ensures n in s[..j + 1] <==> n in s[..j] || s[j] == n
  {
    if s[j] == n { InsertedNext(s, n, j); } else { SkipInserted(s, n, j); }
    assert s[..j + 1] == s[..j] + [s[j]];
  }

  method HandleAt(s: seq<nat>, n: nat, j: nat, start: State, cap: nat, ghost t: string, ghost before: string)
    returns (st: State, ghost u: string)
    requires ValidLabel(s) && n <= MAX_CODE_POINT && j < |s| && s[j] == n && start.delta < TWO_32
    requires start.d == Cut(t + before, cap)
    ensures st.delta == 0 && st.h == start.h + 1 && st.d == Cut(t + u, cap)
    ensures Rest(s, n, j, start).After(before) == Rest(s, n, j + 1, st).After(u)
  {
    ghost var number := Digits(start.delta, 36, start.bias);
    st := Handle(s, n, j, start, cap, t + before);
    AfterTwice(Rest(s, n, j + 1, st), before, number, t);
    u := before + number;
  }

  /** One pass over the label, for the code point n. */
  method ScanPass(s: seq<nat>, n: nat, start: State, cap: nat, ghost t: string)
    returns (ok: bool, st: State, ghost u: string)
    requires ValidLabel(s) && n <= MAX_CODE_POINT && n in s && start.delta < TWO_32
    requires start.h == |Below(s, n)| && start.d == Cut(t, cap)
    ensures !ok ==> Rest(s, n, 0, start).Overflow?
    ensures ok ==> st.h == |Below(s, n + 1)| && st.delta < TWO_32 - 1 && st.d == Cut(t + u, cap)
    ensures ok ==> Rest(s, n, 0, start) == Pass(s, n + 1, st.delta + 1, st.bias, st.h, st.first).After(u)
  {
    st, u, ok := start, "", true;
    assert t + u == t;
    AfterNothing(Rest(s, n, 0, start));
    RestEnds(s, n, st);
    for j := 0 to |s|
      invariant st.delta < TWO_32 && st.h == |Inserted(s, n, j)| && st.d == Cut(t + u, cap)
      invariant n in s[..j] ==> st.delta <= j
      invariant Rest(s, n, 0, start) == Rest(s, n, j, st).After(u)
    {
      ok, st, u := ScanOne(s, n, j, st, cap, t, u);
      if !ok {
        return;
      }
    }
    RestEnds(s, n, st);
    assert s[..|s|] == s;
  }

  lemma {:induction false} AfterNothing(t: Text)
    ensures t.After("") == t
  {
    if t.Text? { assert "" + t.s == t.s; }
  }

  ghost function Ahead(s: seq<nat>, n: nat, st: State): (t: Text)
    requires ValidLabel(s) && n <= MAX_CODE_POINT + 1
  {
    Pass(s, n, st.delta, st.bias, st.h, st.first)
  }

  /** The body of the outer loop: find the next code point, move delta up to it, scan for it. */
  method OnePass(s: seq<nat>, n: nat, st: State, cap: nat, ghost t: string)
    returns (ok: bool, n': nat, st': State, ghost u: string)
    requires ValidLabel(s) && n <= MAX_CODE_POINT + 1 && st.delta < TWO_32 && st.d == Cut(t, cap)
    requires st.h == |Below(s, n)| < |s|
    ensures !ok ==> Ahead(s, n, st).Overflow?
    ensures ok ==> n < n' <= MAX_CODE_POINT + 1 && st'.delta < TWO_32 && st'.h == |Below(s, n')|
    ensures ok ==> st'.d == Cut(t + u, cap) && Ahead(s, n, st) == Ahead(s, n', st').After(u)
  {
    var m := FindLeast(s, n);
    if m == NO_CODE_POINT {
      AllBelow(s, n);
      assert false;
    }
    var x, y := m - n, st.h + 1;
    u, n' := "", m + 1;
    if x > (TWO_32 - 1 - st.delta) / y {
      return false, n', st, u;
    }
    NoWrap(x, y, TWO_32 - 1 - st.delta);
    BelowSame(s, n, m);
    ok, st', u := ScanPass(s, m, st.(delta := st.delta + x * y), cap, t);
    if ok {
      assert st'.delta + 1 < TWO_32;
      st' := st'.(delta := st'.delta + 1);
    }
  }

  /** All passes, until every code point has been handled. */
  method Passes(s: seq<nat>, start: State, todo0: nat, cap: nat, ghost t: string) returns (ok: bool, d: string)
    requires ValidLabel(s) && start == State(0, 72, |Below(s, 128)|, true, Cut(t, cap)) && todo0 == |s| - start.h
    ensures ok <==> Ahead(s, 128, start).Text?
    ensures ok ==> d == Cut(t + Ahead(s, 128, start).s, cap)
  {
    var st, n, todo := start, 128, todo0;
    ghost var u := "";
    assert t + u == t;
    AfterNothing(Ahead(s, 128, start));
    while todo > 0
      invariant 128 <= n <= MAX_CODE_POINT + 1 && st.delta < TWO_32
      invariant st.h == |Below(s, n)| && todo == |s| - st.h && st.d == Cut(t + u, cap)
      invariant Ahead(s, 128, start) == Ahead(s, n, st).After(u)
      decreases MAX_CODE_POINT + 1 - n
    {
      var h := st.h;
      ghost var more;
      ok, n, st, more := OnePass(s, n, st, cap, t + u);
      if !ok {
        return false, st.d;
      }
      AfterTwice(Ahead(s, n, st), u, more, t);
      u := u + more;
      todo := todo - (st.h - h);
    }
    NoneLeft(s, n);
    assert u + "" == u;
    return true, st.d;
  }

  lemma {:induction false} NoWrap(x: nat, y: nat, room: nat)
    requires y >= 1 && x <= room / y
    ensures 0 <= x * y <= room
  {
    DivideRest(room, y);
    assert x * y <= (room / y) * y by {
      assert (room / y - x) * y >= 0;
    }
  }

  lemma {:induction false} NoneLeft(s: seq<nat>, n: nat)
    requires Below(s, n) == s && ValidLabel(s)
    ensures Least(s, n) == NO_CODE_POINT
  {
  }

  method PutPrefix(d0: string, cap: nat) returns (d: string)
    requires |d0| <= cap
    ensures d == Cut(d0 + "xn--", cap)
  {
    d := Put(d0, 'x', cap, d0);
    d := Put(d, 'n', cap, d0 + ['x']);
    d := Put(d, '-', cap, d0 + ['x'] + ['n']);
    d := Put(d, '-', cap, d0 + ['x'] + ['n'] + ['-']);
    assert d0 + ['x'] + ['n'] + ['-'] + ['-'] == d0 + "xn--";
  }

  /** The part for labels with a code point beyond ASCII, behind the prefix. */
  method PutEncoded(s: seq<nat>, h: nat, todo: nat, d0: string, cap: nat, ghost t: string) returns (ok: bool, d: string)
    requires ValidLabel(s) && d0 == Cut(t + Chars(Below(s, 128)), cap) && h == |Below(s, 128)| && todo == |s| - h
    ensures ok <==> Encoded(s).Text?
    ensures ok ==> d == Cut(t + Encoded(s).s, cap)
  {
    d := d0;
    if h > 0 {
      d := Put(d, '-', cap, t + Chars(Below(s, 128)));
      Regroup(t, Chars(Below(s, 128)), ['-']);
    } else {
      assert Literal(s) == Chars(Below(s, 128));
    }
    assert d == Cut(t + Literal(s), cap);
    ok, d := Passes(s, State(0, 72, h, true, d), todo, cap, t + Literal(s));
    if ok {
      Regroup(t, Literal(s), Pass(s, 128, 0, 72, h, true).s);
    }
  }

  /** An unsigned 32-bit word returned as int. */
  function AsInt(n: nat): (r: int)
    requires n < TWO_32
  {
    if n < TWO_31 then n else n - TWO_32
  }

  /** uv__idna_toascii_label. Malformed text is refused before anything is written; the return value for a plain
      label is its length as an int, which is negative from 2^31 on. */
  method ToAsciiLabel(s: seq<nat>, d0: string, cap: nat) returns (rc: int, d: string)
    requires Read(s) && |d0| <= cap
    ensures NO_CODE_POINT in s ==> rc == UV_EINVAL && d == d0
    ensures NO_CODE_POINT !in s ==> ValidLabel(s)
    ensures NO_CODE_POINT !in s && Wide(s) && Encoded(s).Overflow? ==> rc == UV_E2BIG
    ensures NO_CODE_POINT !in s && (Wide(s) ==> Encoded(s).Text?) ==>
      d == Cut(d0 + LabelText(s), cap) && rc == if Wide(s) then 0 else AsInt(|s|)
  {
    var ok, h, todo := CountAscii(s);
    if !ok {
      return UV_EINVAL, d0;
    }
    WellFormedRead(s);
    ghost var t := d0;
    d := d0;
    if todo > 0 {
      d := PutPrefix(d, cap);
      t := d0 + "xn--";
    }
    d := CopyAscii(s, h, d, cap, t);
    if todo == 0 {
      return AsInt(h), d;
    }
    ok, d := PutEncoded(s, h, todo, d, cap, t);
    if !ok {
      return UV_E2BIG, d;
    }
    Regroup(d0, "xn--", Encoded(s).s);
    return 0, d;
  }

  /** If the output has room behind d0, the decoder of RFC 3492 reads the label back from behind
      the prefix. */
  lemma {:induction false} OutputDecodes(s: seq<nat>, d0: string, cap: nat)
    requires ValidLabel(s) && Wide(s) && Encoded(s).Text? && |d0| + 4 + |Encoded(s).s| <= cap
    ensures var d := Cut(d0 + LabelText(s), cap);
      |d| == |d0| + 4 + |Encoded(s).s| && d[|d0|..|d0| + 4] == "xn--" && Decode(d[|d0| + 4..]) == Some(s)
  {
    LabelRoundTrip(s);
    assert (d0 + ("xn--" + Encoded(s).s))[|d0| + 4..] == Encoded(s).s;
  }
}
