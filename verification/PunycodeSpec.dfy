/** Punycode: the decoder of section 6.2 of RFC 3492 as the reference, the text that libuv's
    encoder produces, and the proof that the one undoes the other. */
module PunycodeSpec {
  import opened Common
  import opened Arithmetic

  const MAX_CODE_POINT: nat := 0x10_FFFF

  lemma {:induction false} DivideRest(x: nat, y: nat)
    requires y >= 1
    ensures 0 <= x % y < y && 0 <= x / y <= x && x == y * (x / y) + x % y
  {
    MulMono(y, 0, x);
    assert x <= x * y by { assert (y - 1) * x >= 0; assert (y - 1) * x == x * y - x; }
    DivParts(x, y);
    assert x < (x + 1) * y by { assert (x + 1) * y == x * y + y; }
    DivBetween(x, y, 0, x + 1);
  }

  // ----- parameters of section 5 -----

  function Clamp(k: nat, bias: nat): (t: nat)
    ensures 1 <= t <= 26
  {
    var t := if k > bias then k - bias else 1;
    if t > 26 then 26 else t
  }

  /** Bias adaptation, section 6.1. */
  function Adapt(delta: nat, points: nat, first: bool): (bias: nat)
    requires points > 0
  {
    var d := if first then delta / 700 else delta / 2;
    DivideRest(d, points);
    Reduce(d + d / points, 0)
  }

  function Reduce(d: nat, k: nat): (bias: nat)
    decreases d
  {
    if d > 455 then Reduce(d / 35, k + 36) else k + 36 * d / (d + 38)
  }

  // ----- the decoder, section 6.2 -----

  function DigitOf(c: char): (d: Option<nat>)
    ensures d.Some? ==> d.value < 36
  {
    if 'a' <= c <= 'z' then Some(c as nat - 'a' as nat)
    else if 'A' <= c <= 'Z' then Some(c as nat - 'A' as nat)
    else if '0' <= c <= '9' then Some(c as nat - '0' as nat + 26)
    else None
  }

  /** One generalized variable-length integer, added to i with weight w. */
  function DecodeInt(s: string, k: nat, bias: nat, i: nat, w: nat): (r: Option<(nat, string)>)
    ensures r.Some? ==> |r.value.1| < |s| && r.value.0 >= i
    decreases |s|
  {
    if s == [] || DigitOf(s[0]).None? then None
    else
      var digit, t := DigitOf(s[0]).value, Clamp(k, bias);
      if digit < t then Some((i + digit * w, s[1..]))
      else DecodeInt(s[1..], k + 36, bias, i + digit * w, w * (36 - t))
  }

  function InsertAt(out: seq<nat>, i: nat, c: nat): (r: seq<nat>)
    requires i <= |out|
  {
    out[..i] + [c] + out[i..]
  }

  function DecodeFrom(s: string, n: nat, i: nat, bias: nat, out: seq<nat>): (r: Option<seq<nat>>)
    decreases |s|
  {
    if s == [] then Some(out)
    else match DecodeInt(s, 36, bias, i, 1)
      case None => None
      case Some((sum, rest)) =>
        var len := |out| + 1;
        DivideRest(sum, len);
        var c, at := n + sum / len, sum % len;
        DecodeFrom(rest, c, at + 1, Adapt(sum - i, len, i == 0), InsertAt(out, at, c))
  }

  /** The position of the last delimiter, or 0 without one: what precedes it is literal. */
  function LastDelimiter(s: string): (b: nat)
    ensures b == 0 || (b < |s| && s[b] == '-')
  {
    if s == [] then 0
    else if s[|s| - 1] == '-' then |s| - 1
    else LastDelimiter(s[..|s| - 1])
  }

  function CodePoints(s: string): (r: seq<nat>)
    ensures |r| == |s|
  {
    seq(|s|, i requires 0 <= i < |s| => s[i] as nat)
  }

  function Decode(s: string): (r: Option<seq<nat>>) {
    var b := LastDelimiter(s);
    DecodeFrom(if b > 0 then s[b + 1..] else s, 128, 0, 72, CodePoints(s[..b]))
  }

  // ----- what the encoder writes -----

  function Alphabet(d: nat): (c: char)
    requires d < 36
    ensures DigitOf(c) == Some(d) && c != '-'
  {
    if d < 26 then ('a' as nat + d) as char else ('0' as nat + (d - 26)) as char
  }

  /** The digits of q, section 3.3. */
  function Digits(q: nat, k: nat, bias: nat): (s: string)
    decreases q
  {
    var t := Clamp(k, bias);
    if q < t then [Alphabet(q)]
    else
      DivideRest(q - t, 36 - t);
      [Alphabet(t + (q - t) % (36 - t))] + Digits((q - t) / (36 - t), k + 36, bias)
  }

  /** The code points below b, in their order. */
  function Below(s: seq<nat>, b: nat): (r: seq<nat>)
    ensures |r| <= |s| && forall i :: 0 <= i < |r| ==> r[i] < b
    ensures |r| == |s| ==> r == s
  {
    if s == [] then []
    else Below(s[..|s| - 1], b) + if s[|s| - 1] < b then [s[|s| - 1]] else []
  }

  const NO_CODE_POINT: nat := 0xFFFF_FFFF

  /** The least code point that is not below n. */
  function Least(s: seq<nat>, n: nat): (m: nat)
    ensures m == NO_CODE_POINT || (m in s && m >= n)
    ensures forall i :: 0 <= i < |s| ==> s[i] < n || s[i] >= m
  {
    if s == [] then NO_CODE_POINT
    else
      var m, c := Least(s[..|s| - 1], n), s[|s| - 1];
      assert forall i :: 0 <= i < |s| - 1 ==> s[i] == s[..|s| - 1][i];
      if c >= n && c < m then c else m
  }

  predicate ValidLabel(s: seq<nat>) {
    |s| < TWO_32 - 1 && forall i :: 0 <= i < |s| ==> s[i] <= MAX_CODE_POINT
  }

  /** What the character reader can return: code points, and NO_CODE_POINT for malformed bytes. */
  predicate Read(s: seq<nat>) {
    |s| < TWO_32 - 1 && forall i :: 0 <= i < |s| ==> s[i] <= MAX_CODE_POINT || s[i] == NO_CODE_POINT
  }

  lemma {:induction false} WellFormedRead(s: seq<nat>)
    requires Read(s) && NO_CODE_POINT !in s
    ensures ValidLabel(s)
  {
    forall i | 0 <= i < |s| ensures s[i] <= MAX_CODE_POINT { assert s[i] in s; }
  }

  /** The text for a label, or the overflow that makes the encoder give up. */
  datatype Text = Text(s: string) | Overflow
  {
    function After(prefix: string): (t: Text) {
      if Overflow? then this else Text(prefix + s)
    }
  }

  /** From the start of a pass: n is the next candidate, h code points have been handled. */
  function Pass(s: seq<nat>, n: nat, delta: nat, bias: nat, h: nat, first: bool): (t: Text)
    requires ValidLabel(s) && n <= MAX_CODE_POINT + 1
    decreases MAX_CODE_POINT + 1 - n, 1, 0
  {
    var m := Least(s, n);
    if m == NO_CODE_POINT then Text("")
    else if m - n > (TWO_32 - 1 - delta) / (h + 1) then Overflow
    else Scan(s, m, 0, delta + (m - n) * (h + 1), bias, h, first)
  }

  /** From position j of the pass that handles the code point n. */
  function Scan(s: seq<nat>, n: nat, j: nat, delta: nat, bias: nat, h: nat, first: bool): (t: Text)
    requires ValidLabel(s) && n <= MAX_CODE_POINT && j <= |s|
    decreases MAX_CODE_POINT + 1 - n, 0, |s| - j
  {
    if j == |s| then Pass(s, n + 1, delta + 1, bias, h, first)
    else if s[j] < n then
      if delta + 1 == TWO_32 then Overflow else Scan(s, n, j + 1, delta + 1, bias, h, first)
    else if s[j] == n then
      Scan(s, n, j + 1, 0, Adapt(delta, h + 1, first), h + 1, false).After(Digits(delta, 36, bias))
    else Scan(s, n, j + 1, delta, bias, h, first)
  }

  // ----- the round trip -----

  /** A number is uniquely decodable under the bias it was written with, whatever follows. */
  lemma {:induction false} DigitsRoundTrip(q: nat, k: nat, bias: nat, i: nat, w: nat, x: string)
    ensures DecodeInt(Digits(q, k, bias) + x, k, bias, i, w) == Some((i + q * w, x))
    decreases q
  {
    var t := Clamp(k, bias);
    if q < t {
      assert ([Alphabet(q)] + x)[1..] == x;
    } else {
      var y := 36 - t;
      DivideRest(q - t, y);
      var d, high := t + (q - t) % y, (q - t) / y;
      Weights(q, d, high, y, w);
      var i', w' := i + d * w, w * y;
      DigitsRoundTrip(high, k + 36, bias, i', w', x);
      FirstDigit(Digits(q, k, bias), Digits(high, k + 36, bias), d, k, bias, i, w, x);
    }
  }

  /** A digit that is not below the threshold is followed by more of the number. */
  lemma {:induction false} FirstDigit(s: string, more: string, d: nat, k: nat, bias: nat, i: nat, w: nat, x: string)
    requires Clamp(k, bias) <= d < 36 && s == [Alphabet(d)] + more
    requires d * w >= 0 && w * (36 - Clamp(k, bias)) >= 0
    ensures DecodeInt(s + x, k, bias, i, w) == DecodeInt(more + x, k + 36, bias, i + d * w, w * (36 - Clamp(k, bias)))
  {
    assert (s + x)[1..] == more + x;
  }

  lemma {:induction false} Weights(q: nat, d: nat, high: nat, y: nat, w: nat)
    requires q == d + y * high
    ensures d * w + high * (w * y) == q * w && d * w >= 0 && w * y >= 0
  {
    assert high * (w * y) == (y * high) * w;
    assert (d + y * high) * w == d * w + (y * high) * w;
  }

  /** What the decoder holds when the encoder stands at position j of the pass for n. */
  function Inserted(s: seq<nat>, n: nat, j: nat): (r: seq<nat>)
    requires j <= |s|
  {
    Below(s[..j], n + 1) + Below(s[j..], n)
  }

  lemma {:induction false} BelowAppend(a: seq<nat>, b: seq<nat>, n: nat)
    ensures Below(a + b, n) == Below(a, n) + Below(b, n)
    decreases |b|
  {
    if b == [] {
      assert a + b == a;
    } else {
      var m := |b| - 1;
      assert (a + b)[..|a + b| - 1] == a + b[..m];
      BelowAppend(a, b[..m], n);
    }
  }

  lemma {:induction false} FrontStep(s: seq<nat>, n: nat, j: nat)
    requires j < |s|
    ensures Below(s[..j + 1], n + 1) == Below(s[..j], n + 1) + (if s[j] <= n then [s[j]] else [])
  {
    assert s[..j + 1][..j] == s[..j];
  }

  lemma {:induction false} BackStep(s: seq<nat>, n: nat, j: nat)
    requires j < |s|
    ensures Below(s[j..], n) == (if s[j] < n then [s[j]] else []) + Below(s[j + 1..], n)
  {
    assert s[j..] == [s[j]] + s[j + 1..];
    BelowAppend([s[j]], s[j + 1..], n);
    assert [s[j]][..0] == [];
  }

  /** Moving on by one position. */
  lemma {:induction false} InsertedStep(s: seq<nat>, n: nat, j: nat)
    requires j < |s|
    ensures Inserted(s, n, j + 1) ==
      if s[j] == n then InsertAt(Inserted(s, n, j), |Below(s[..j], n + 1)|, n) else Inserted(s, n, j)
  {
    var front, back := Below(s[..j], n + 1), Below(s[j + 1..], n);
    FrontStep(s, n, j);
    BackStep(s, n, j);
    Splice(front, s[j], back);
    assert Inserted(s, n, j) == if s[j] < n then front + [s[j]] + back else front + back;
    assert Inserted(s, n, j + 1) == if s[j] <= n then front + [s[j]] + back else front + back;
  }

  lemma {:induction false} Splice(front: seq<nat>, c: nat, back: seq<nat>)
    ensures InsertAt(front + back, |front|, c) == front + [c] + back
    ensures front + [c] + back == front + ([c] + back)
    ensures front + [] == front && [] + back == back
  {
    assert (front + back)[..|front|] == front && (front + back)[|front|..] == back;
  }

  lemma {:induction false} BelowSame(s: seq<nat>, n: nat, m: nat)
    requires n <= m && forall i :: 0 <= i < |s| ==> s[i] < n || s[i] >= m
    ensures Below(s, m) == Below(s, n)
  {
    if s != [] { BelowSame(s[..|s| - 1], n, m); }
  }

  /** The decoder has read what was written so far: it holds `out`, expects c not below nd, and the
      distance it has still to count is delta. */
  predicate InStep(delta: int, n: nat, nd: nat, id: nat, h: nat, at: nat) {
    nd <= n && at <= h && delta == (n - nd) * (h + 1) + at - id
  }

  /** Decoding one number inserts the code point of the pass at the position of the scan. */
  lemma {:induction false} DecodeOne(delta: nat, n: nat, nd: nat, id: nat, bias: nat, out: seq<nat>, at: nat, x: string)
    requires InStep(delta, n, nd, id, |out|, at)
    ensures DecodeFrom(Digits(delta, 36, bias) + x, nd, id, bias, out) ==
      DecodeFrom(x, n, at + 1, Adapt(delta, |out| + 1, id == 0), InsertAt(out, at, n))
  {
    var len, sum := |out| + 1, id + delta;
    DigitsRoundTrip(delta, 36, bias, id, 1, x);
    DivUnique(sum, len, n - nd, at);
    assert Digits(delta, 36, bias) + x != [];
  }

  /** Handling the code point at j: the decoder catches up with the encoder. */
  lemma {:induction false} CatchUp(n: nat, h: nat, at: nat)
    requires at <= h
    ensures InStep(0, n, n, at + 1, h + 1, at + 1)
  {
  }

  /** The scan reaches a code point equal to n and writes a number for it. */
  lemma {:induction false} EmitRoundTrip(s: seq<nat>, n: nat, j: nat, delta: nat, bias: nat, first: bool, nd: nat,
                                         id: nat)
    requires ValidLabel(s) && n <= MAX_CODE_POINT && j < |s| && s[j] == n
    requires InStep(delta, n, nd, id, |Inserted(s, n, j)|, |Below(s[..j], n + 1)|)
    requires first == (id == 0)
    requires Scan(s, n, j, delta, bias, |Inserted(s, n, j)|, first).Text?
    ensures var h := Inserted(s, n, j);
      DecodeFrom(Scan(s, n, j, delta, bias, |h|, first).s, nd, id, bias, h) == Some(s)
    decreases MAX_CODE_POINT + 1 - n, 0, |s| - j, 0
  {
    var out := Inserted(s, n, j);
    var h, at := |out|, |Below(s[..j], n + 1)|;
    var bias' := Adapt(delta, h + 1, first);
    var rest := Scan(s, n, j + 1, 0, bias', h + 1, false);
    ScanEmits(s, n, j, delta, bias, h, first);
    DecodeOne(delta, n, nd, id, bias, out, at, rest.s);
    InsertedNext(s, n, j);
    CatchUp(n, h, at);
    ScanRoundTrip(s, n, j + 1, 0, bias', false, n, at + 1);
  }

  /** What the scan writes at a code point equal to n. */
  lemma {:induction false} ScanEmits(s: seq<nat>, n: nat, j: nat, delta: nat, bias: nat, h: nat, first: bool)
    requires ValidLabel(s) && n <= MAX_CODE_POINT && j < |s| && s[j] == n && Scan(s, n, j, delta, bias, h, first).Text?
    ensures var rest := Scan(s, n, j + 1, 0, Adapt(delta, h + 1, first), h + 1, false);
      rest.Text? && Scan(s, n, j, delta, bias, h, first).s == Digits(delta, 36, bias) + rest.s
  {
  }

  lemma {:induction false} InsertedNext(s: seq<nat>, n: nat, j: nat)
    requires j < |s| && s[j] == n
    ensures var out, at := Inserted(s, n, j), |Below(s[..j], n + 1)|;
      && at <= |out| && Inserted(s, n, j + 1) == InsertAt(out, at, n)
      && |Inserted(s, n, j + 1)| == |out| + 1 && |Below(s[..j + 1], n + 1)| == at + 1
  {
    InsertedStep(s, n, j);
    FrontStep(s, n, j);
  }

  lemma {:induction false} ScanRoundTrip(s: seq<nat>, n: nat, j: nat, delta: nat, bias: nat, first: bool, nd: nat,
                                         id: nat)
    requires ValidLabel(s) && n <= MAX_CODE_POINT && j <= |s|
    requires InStep(delta, n, nd, id, |Inserted(s, n, j)|, |Below(s[..j], n + 1)|)
    requires first == (id == 0)
    requires Scan(s, n, j, delta, bias, |Inserted(s, n, j)|, first).Text?
    ensures var h := Inserted(s, n, j);
      DecodeFrom(Scan(s, n, j, delta, bias, |h|, first).s, nd, id, bias, h) == Some(s)
    decreases MAX_CODE_POINT + 1 - n, 0, |s| - j, 1
  {
    if j == |s| {
      assert s[..j] == s && s[j..] == [] && Inserted(s, n, j) == Below(s, n + 1);
      EndOfPass(delta, n, nd, id, |Below(s, n + 1)|);
      PassRoundTrip(s, n + 1, delta + 1, bias, first, nd, id);
    } else if s[j] == n {
      EmitRoundTrip(s, n, j, delta, bias, first, nd, id);
    } else {
      SkipRoundTrip(s, n, j, delta, bias, first, nd, id);
    }
  }

  /** The scan passes over any other code point and counts those below n. */
  lemma {:induction false} SkipRoundTrip(s: seq<nat>, n: nat, j: nat, delta: nat, bias: nat, first: bool, nd: nat,
                                         id: nat)
    requires ValidLabel(s) && n <= MAX_CODE_POINT && j < |s| && s[j] != n
    requires InStep(delta, n, nd, id, |Inserted(s, n, j)|, |Below(s[..j], n + 1)|)
    requires first == (id == 0)
    requires Scan(s, n, j, delta, bias, |Inserted(s, n, j)|, first).Text?
    ensures var h := Inserted(s, n, j);
      DecodeFrom(Scan(s, n, j, delta, bias, |h|, first).s, nd, id, bias, h) == Some(s)
    decreases MAX_CODE_POINT + 1 - n, 0, |s| - j, 0
  {
    var next := if s[j] < n then delta + 1 else delta;
    ScanSkips(s, n, j, delta, bias, |Inserted(s, n, j)|, first);
    SkipInserted(s, n, j);
    ScanRoundTrip(s, n, j + 1, next, bias, first, nd, id);
  }

  lemma {:induction false} ScanSkips(s: seq<nat>, n: nat, j: nat, delta: nat, bias: nat, h: nat, first: bool)
    requires ValidLabel(s) && n <= MAX_CODE_POINT && j < |s| && s[j] != n && Scan(s, n, j, delta, bias, h, first).Text?
    ensures Scan(s, n, j + 1, if s[j] < n then delta + 1 else delta, bias, h, first) ==
      Scan(s, n, j, delta, bias, h, first)
  {
  }

  lemma {:induction false} SkipInserted(s: seq<nat>, n: nat, j: nat)
    requires j < |s| && s[j] != n
    ensures Inserted(s, n, j + 1) == Inserted(s, n, j)
    ensures |Below(s[..j + 1], n + 1)| == |Below(s[..j], n + 1)| + if s[j] < n then 1 else 0
    ensures |Below(s[..j + 1], n + 1)| <= |Inserted(s, n, j + 1)|
  {
    InsertedStep(s, n, j);
    FrontStep(s, n, j);
  }

  lemma {:induction false} EndOfPass(delta: nat, n: nat, nd: nat, id: nat, h: nat)
    requires InStep(delta, n, nd, id, h, h)
    ensures delta + 1 == (n + 1 - nd) * (h + 1) - id
  {
  }

  lemma {:induction false} PassRoundTrip(s: seq<nat>, n: nat, delta: nat, bias: nat, first: bool, nd: nat, id: nat)
    requires ValidLabel(s) && nd <= n <= MAX_CODE_POINT + 1
    requires delta == (n - nd) * (|Below(s, n)| + 1) - id && first == (id == 0)
    requires Pass(s, n, delta, bias, |Below(s, n)|, first).Text?
    ensures DecodeFrom(Pass(s, n, delta, bias, |Below(s, n)|, first).s, nd, id, bias, Below(s, n)) == Some(s)
    decreases MAX_CODE_POINT + 1 - n, 1, 0
  {
    var m, h := Least(s, n), |Below(s, n)|;
    if m == NO_CODE_POINT {
      AllBelow(s, n);
    } else {
      var sum := PassScans(s, n, delta, bias, h, first);
      StartOfPass(delta, n, m, nd, id, h, sum);
      BelowSame(s, n, m);
      FrontBack(s, m);
      ScanRoundTrip(s, m, 0, sum, bias, first, nd, id);
    }
  }

  /** A pass that finds a code point scans for it, with delta moved up to it. */
  lemma {:induction false} PassScans(s: seq<nat>, n: nat, delta: nat, bias: nat, h: nat, first: bool) returns (sum: nat)
    requires ValidLabel(s) && n <= MAX_CODE_POINT + 1
    requires Pass(s, n, delta, bias, h, first).Text? && Least(s, n) != NO_CODE_POINT
    ensures n <= Least(s, n) <= MAX_CODE_POINT && sum == delta + (Least(s, n) - n) * (h + 1)
    ensures Pass(s, n, delta, bias, h, first) == Scan(s, Least(s, n), 0, sum, bias, h, first)
  {
    Gap(n, Least(s, n), n, h + 1);
    sum := delta + (Least(s, n) - n) * (h + 1);
  }

  lemma {:induction false} StartOfPass(delta: nat, n: nat, m: nat, nd: nat, id: nat, h: nat, sum: nat)
    requires nd <= n <= m && delta == (n - nd) * (h + 1) - id && sum == delta + (m - n) * (h + 1)
    ensures InStep(sum, m, nd, id, h, 0)
  {
    Gap(n, m, nd, h + 1);
  }

  lemma {:induction false} FrontBack(s: seq<nat>, m: nat)
    ensures Inserted(s, m, 0) == Below(s, m) && Below(s[..0], m + 1) == []
  {
    assert s[..0] == [] && s[0..] == s;
  }

  lemma {:induction false} Gap(n: nat, m: nat, nd: nat, y: nat)
    requires nd <= n <= m
    ensures (m - nd) * y == (n - nd) * y + (m - n) * y && (m - n) * y >= 0
  {
  }

  lemma {:induction false} AllBelow(s: seq<nat>, n: nat)
    requires ValidLabel(s) && forall i :: 0 <= i < |s| ==> s[i] < n || s[i] >= NO_CODE_POINT
    ensures Below(s, n) == s
  {
    if s != [] { AllBelow(s[..|s| - 1], n); }
  }

  // ----- whole labels -----

  function Chars(b: seq<nat>): (s: string)
    requires forall i :: 0 <= i < |b| ==> b[i] < 128
    ensures |s| == |b| && forall i :: 0 <= i < |b| ==> s[i] as nat == b[i]
  {
    seq(|b|, i requires 0 <= i < |b| => b[i] as char)
  }

  /** The literal part: the ASCII code points, and a delimiter if there are any. */
  function Literal(s: seq<nat>): (t: string) {
    var basic := Below(s, 128);
    Chars(basic) + if basic == [] then "" else "-"
  }

  /** The text of a label with a code point beyond ASCII, without its xn-- prefix. */
  function Encoded(s: seq<nat>): (t: Text)
    requires ValidLabel(s)
  {
    Pass(s, 128, 0, 72, |Below(s, 128)|, true).After(Literal(s))
  }

  // ----- overflow -----

  /** Labels that are short enough never to overflow, whatever they hold. */
  const MAX_SAFE_LENGTH: nat := 3853

  /** What delta can have counted up to when the pass for n, with h code points handled, has passed `at` of them. */
  predicate Counted(delta: nat, n: nat, h: nat, at: nat) { delta <= n * (h + 1) + at }

  lemma {:induction false} Safe(n: nat, h: nat)
    requires n <= MAX_CODE_POINT && h <= MAX_SAFE_LENGTH
    ensures n * (h + 1) + h < TWO_32 - 1
  {
    MulMono(h + 1, n, MAX_CODE_POINT);
    MulMono(MAX_CODE_POINT, h + 1, MAX_SAFE_LENGTH + 1);
  }

  lemma {:induction false} CountedSteps(delta: nat, n: nat, h: nat, at: nat)
    requires n <= MAX_CODE_POINT && at <= h <= MAX_SAFE_LENGTH && Counted(delta, n, h, at)
    ensures delta + 1 < TWO_32 && Counted(delta + 1, n, h, at + 1) && (at == h ==> Counted(delta + 1, n + 1, h, 0))
  {
    Safe(n, h);
    assert (n + 1) * (h + 1) == n * (h + 1) + h + 1;
  }

  lemma {:induction false} CountedZero(n: nat, h: nat, at: nat)
    ensures Counted(0, n, h, at)
  {
    MulMono(h + 1, 0, n);
  }

  /** The state of a scan whose delta has not overflowed. */
  predicate OnTrack(s: seq<nat>, n: nat, j: nat, delta: nat, h: nat) {
    && ValidLabel(s) && |s| <= MAX_SAFE_LENGTH && n <= MAX_CODE_POINT && j <= |s| && h == |Inserted(s, n, j)|
    && Counted(delta, n, h, |Below(s[..j], n + 1)|)
  }

  lemma {:induction false} OnTrackSteps(s: seq<nat>, n: nat, j: nat, delta: nat, h: nat)
    requires OnTrack(s, n, j, delta, h)
    ensures delta + 1 < TWO_32
    ensures j == |s| ==> h == |Below(s, n + 1)| && Counted(delta + 1, n + 1, h, 0)
    ensures j < |s| && s[j] == n ==> OnTrack(s, n, j + 1, 0, h + 1)
    ensures j < |s| && s[j] != n ==> OnTrack(s, n, j + 1, if s[j] < n then delta + 1 else delta, h)
  {
    CountedSteps(delta, n, h, |Below(s[..j], n + 1)|);
    if j == |s| {
      WholeInserted(s, n);
    } else if s[j] == n {
      InsertedStep(s, n, j);
      CountedZero(n, h + 1, |Below(s[..j + 1], n + 1)|);
    } else {
      SkipInserted(s, n, j);
    }
  }

  lemma {:induction false} ScanFits(s: seq<nat>, n: nat, j: nat, delta: nat, bias: nat, h: nat, first: bool)
    requires OnTrack(s, n, j, delta, h)
    ensures Scan(s, n, j, delta, bias, h, first).Text?
    decreases MAX_CODE_POINT + 1 - n, 0, |s| - j
  {
    OnTrackSteps(s, n, j, delta, h);
    if j == |s| {
      PassFits(s, n + 1, delta + 1, bias, first);
    } else if s[j] == n {
      ScanFits(s, n, j + 1, 0, Adapt(delta, h + 1, first), h + 1, false);
    } else {
      ScanFits(s, n, j + 1, if s[j] < n then delta + 1 else delta, bias, h, first);
    }
  }

  lemma {:induction false} WholeInserted(s: seq<nat>, n: nat)
    ensures Inserted(s, n, |s|) == Below(s, n + 1) == Below(s[..|s|], n + 1)
  {
    assert s[..|s|] == s && s[|s|..] == [];
  }

  lemma {:induction false} PassFits(s: seq<nat>, n: nat, delta: nat, bias: nat, first: bool)
    requires ValidLabel(s) && |s| <= MAX_SAFE_LENGTH && n <= MAX_CODE_POINT + 1
    requires Counted(delta, n, |Below(s, n)|, 0)
    ensures Pass(s, n, delta, bias, |Below(s, n)|, first).Text?
    decreases MAX_CODE_POINT + 1 - n, 1, 0
  {
    var m, h := Least(s, n), |Below(s, n)|;
    if m != NO_CODE_POINT {
      GapFits(n, m, h, delta);
      BelowSame(s, n, m);
      FrontBack(s, m);
      ScanFits(s, m, 0, delta + (m - n) * (h + 1), bias, h, first);
    }
  }

  /** The test in front of a pass does not fire. */
  lemma {:induction false} GapFits(n: nat, m: nat, h: nat, delta: nat)
    requires n <= m <= MAX_CODE_POINT && h <= MAX_SAFE_LENGTH && Counted(delta, n, h, 0)
    ensures 0 <= (m - n) * (h + 1) && Counted(delta + (m - n) * (h + 1), m, h, 0)
    ensures m - n <= (TWO_32 - 1 - delta) / (h + 1)
  {
    Safe(m, h);
    Gap(n, m, 0, h + 1);
    var t, g := TWO_32 - 1 - delta, h + 1;
    DivParts(t, g);
    if t / g < m - n { MulMono(g, t / g + 1, m - n); }
  }

  /** A label of at most 3853 characters never overflows. */
  lemma {:induction false} ShortLabelFits(s: seq<nat>)
    requires ValidLabel(s) && |s| <= MAX_SAFE_LENGTH
    ensures Encoded(s).Text?
  {
    CountedZero(128, |Below(s, 128)|, 0);
    PassFits(s, 128, 0, 72, true);
  }

  /** The bound can hardly be better: three more ASCII characters in front of the last code point do overflow. */
  lemma {:induction false} LongLabelOverflows(a: seq<nat>)
    requires MAX_SAFE_LENGTH + 2 <= |a| < TWO_32 - 2 && forall i :: 0 <= i < |a| ==> a[i] < 128
    ensures ValidLabel(a + [MAX_CODE_POINT]) && Encoded(a + [MAX_CODE_POINT]) == Overflow
  {
    var s, h := a + [MAX_CODE_POINT], |a|;
    assert s[..h] == a;
    AllAscii(a);
    LeastWide(a);
    var t, g := TWO_32 - 1, h + 1;
    DivParts(t, g);
    if t / g >= MAX_CODE_POINT - 128 {
      MulMono(g, MAX_CODE_POINT - 128, t / g);
      MulMono(MAX_CODE_POINT - 128, MAX_SAFE_LENGTH + 3, g);
    }
  }

  lemma {:induction false} AllAscii(a: seq<nat>)
    requires forall i :: 0 <= i < |a| ==> a[i] < 128
    ensures Below(a, 128) == a
  {
    if a != [] { AllAscii(a[..|a| - 1]); }
  }

  lemma {:induction false} LeastWide(a: seq<nat>)
    requires forall i :: 0 <= i < |a| ==> a[i] < 128
    ensures Least(a, 128) == NO_CODE_POINT
  {
  }

  predicate NoDelimiter(s: string) { '-' !in s }

  lemma {:induction false} DigitsNoDelimiter(q: nat, k: nat, bias: nat)
    ensures NoDelimiter(Digits(q, k, bias))
    decreases q
  {
    var t := Clamp(k, bias);
    if q >= t {
      DivideRest(q - t, 36 - t);
      DigitsNoDelimiter((q - t) / (36 - t), k + 36, bias);
    }
  }

  lemma {:induction false} PassNoDelimiter(s: seq<nat>, n: nat, delta: nat, bias: nat, h: nat, first: bool)
    requires ValidLabel(s) && n <= MAX_CODE_POINT + 1 && Pass(s, n, delta, bias, h, first).Text?
    ensures NoDelimiter(Pass(s, n, delta, bias, h, first).s)
    decreases MAX_CODE_POINT + 1 - n, 1, 0
  {
    var m := Least(s, n);
    if m != NO_CODE_POINT {
      Gap(n, m, n, h + 1);
      ScanNoDelimiter(s, m, 0, delta + (m - n) * (h + 1), bias, h, first);
    }
  }

  lemma {:induction false} ScanNoDelimiter(s: seq<nat>, n: nat, j: nat, delta: nat, bias: nat, h: nat, first: bool)
    requires ValidLabel(s) && n <= MAX_CODE_POINT && j <= |s| && Scan(s, n, j, delta, bias, h, first).Text?
    ensures NoDelimiter(Scan(s, n, j, delta, bias, h, first).s)
    decreases MAX_CODE_POINT + 1 - n, 0, |s| - j
  {
    if j == |s| {
      PassNoDelimiter(s, n + 1, delta + 1, bias, h, first);
    } else if s[j] == n {
      var bias' := Adapt(delta, h + 1, first);
      ScanNoDelimiter(s, n, j + 1, 0, bias', h + 1, false);
      DigitsNoDelimiter(delta, 36, bias);
    } else {
      ScanNoDelimiter(s, n, j + 1, if s[j] < n then delta + 1 else delta, bias, h, first);
    }
  }

  lemma {:induction false} LastDelimiterAt(a: string, b: string)
    requires NoDelimiter(b)
    ensures LastDelimiter(a + ['-'] + b) == |a|
    decreases |b|
  {
    if b == [] {
      assert a + ['-'] + b == a + ['-'];
    } else {
      var m := |b| - 1;
      assert (a + ['-'] + b)[..|a| + 1 + m] == a + ['-'] + b[..m];
      LastDelimiterAt(a, b[..m]);
    }
  }

  lemma {:induction false} NoLastDelimiter(b: string)
    requires NoDelimiter(b)
    ensures LastDelimiter(b) == 0
  {
    if b != [] { NoLastDelimiter(b[..|b| - 1]); }
  }

  lemma {:induction false} DecodeBare(tail: string)
    requires NoDelimiter(tail)
    ensures Decode(tail) == DecodeFrom(tail, 128, 0, 72, [])
  {
    NoLastDelimiter(tail);
    assert CodePoints(tail[..0]) == [] && tail[0..] == tail;
  }

  lemma {:induction false} DecodeLiteral(basic: seq<nat>, tail: string)
    requires NoDelimiter(tail) && basic != [] && forall i :: 0 <= i < |basic| ==> basic[i] < 128
    ensures Decode(Chars(basic) + "-" + tail) == DecodeFrom(tail, 128, 0, 72, basic)
  {
    var t := Chars(basic) + ['-'] + tail;
    LastDelimiterAt(Chars(basic), tail);
    assert t[|basic| + 1..] == tail && t[..|basic|] == Chars(basic);
    assert CodePoints(Chars(basic)) == basic;
  }

  /** Whatever label the encoder writes, the decoder of RFC 3492 gives it back. */
  lemma {:induction false} LabelRoundTrip(s: seq<nat>)
    requires ValidLabel(s) && Encoded(s).Text?
    ensures Decode(Encoded(s).s) == Some(s)
  {
    var basic := Below(s, 128);
    var tail := Pass(s, 128, 0, 72, |basic|, true).s;
    assert NoDelimiter(tail) by { PassNoDelimiter(s, 128, 0, 72, |basic|, true); }
    assert DecodeFrom(tail, 128, 0, 72, basic) == Some(s) by { PassRoundTrip(s, 128, 0, 72, true, 128, 0); }
    if basic == [] {
      DecodeBare(tail);
      assert "" + "" + tail == tail;
    } else {
      DecodeLiteral(basic, tail);
    }
  }
}
