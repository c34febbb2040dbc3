/** What RFC 3492 and RFC 3490 publish, against what is encoded: parameters, samples and the separators of labels. */
module Rfc3492 {
  import opened Common
  import opened Arithmetic
  import opened PunycodeSpec
  import opened Punycode
  import opened Idna

  // ----- section 5: parameter values -----

  const BASE: nat := 36
  const TMIN: nat := 1
  const TMAX: nat := 26
  const SKEW: nat := 38
  const DAMP: nat := 700

  /** The threshold, as the decoder of section 6.2 has it. */
  lemma {:induction false} ThresholdExact(k: nat, bias: nat)
    ensures Clamp(k, bias) == if k <= bias + TMIN then TMIN else if k >= bias + TMAX then TMAX else k - bias
  {
  }

  function Power35(j: nat): (p: nat)
    ensures p > 0
  {
    if j == 0 then 1 else (BASE - TMIN) * Power35(j - 1)
  }

  /** Section 6.1: the increment is damped or halved and enlarged, then divided by 35, j times, until it is at most
      455. */
  predicate AdaptsIn(delta: nat, points: nat, first: bool, bias: nat, j: nat)
    requires points > 0
  {
    var d := if first then delta / DAMP else delta / 2;
    var e := d + Quotient(d, points);
    && Scaled(e, j) <= (BASE - TMIN) * TMAX / 2 && (j > 0 ==> Scaled(e, j - 1) > (BASE - TMIN) * TMAX / 2)
    && bias == BASE * j + (BASE - TMIN + 1) * Scaled(e, j) / (Scaled(e, j) + SKEW)
  }

  function Quotient(x: nat, y: nat): (q: nat)
    requires y > 0
  {
    DivideRest(x, y);
    x / y
  }

  /** x, divided j times by 35. */
  function Scaled(x: nat, j: nat): (q: nat) { Quotient(x, Power35(j)) }

  lemma {:induction false} ReduceExact(e: nat, k: nat) returns (j: nat)
    ensures e / Power35(j) <= 455 && (j > 0 ==> e / Power35(j - 1) > 455)
    ensures Reduce(e, k) == k + 36 * j + 36 * (e / Power35(j)) / (e / Power35(j) + 38)
    decreases e
  {
    if e <= 455 {
      j := 0;
    } else {
      var i := ReduceExact(e / 35, k + 36);
      j := i + 1;
      DivTwice(e, 35, Power35(i));
      if i > 0 { DivTwice(e, 35, Power35(i - 1)); }
    }
  }

  lemma {:induction false} AdaptExact(delta: nat, points: nat, first: bool) returns (j: nat)
    requires points > 0
    ensures AdaptsIn(delta, points, first, Adapt(delta, points, first), j)
  {
    var d := if first then delta / 700 else delta / 2;
    DivideRest(d, points);
    j := ReduceExact(d + d / points, 0);
  }

  /** Section 5: a to z in either case are 0 to 25, 0 to 9 are 26 to 35; the encoder writes lower case. */
  lemma {:induction false} DigitsExact(d: nat)
    requires d < 36
    ensures var table := "abcdefghijklmnopqrstuvwxyz0123456789";
      && Alphabet(d) == table[d] && DigitOf(table[d]) == Some(d)
      && DigitOf("ABCDEFGHIJKLMNOPQRSTUVWXYZ0123456789"[d]) == Some(d)
  {
    TableAt(d);
  }

  lemma {:induction false} TableAt(d: nat)
    requires d < 36
    ensures var lower, upper := "abcdefghijklmnopqrstuvwxyz0123456789", "ABCDEFGHIJKLMNOPQRSTUVWXYZ0123456789";
      if d < 26 then lower[d] == ('a' as nat + d) as char && upper[d] == ('A' as nat + d) as char
      else lower[d] == upper[d] == ('0' as nat + d - 26) as char
  {
    if d < 12 {
      assert d == 0 || d == 1 || d == 2 || d == 3 || d == 4 || d == 5 || d == 6 || d == 7 || d == 8 || d == 9
        || d == 10 || d == 11;
    } else if d < 24 {
      assert d == 12 || d == 13 || d == 14 || d == 15 || d == 16 || d == 17 || d == 18 || d == 19 || d == 20
        || d == 21 || d == 22 || d == 23;
    } else {
      assert d == 24 || d == 25 || d == 26 || d == 27 || d == 28 || d == 29 || d == 30 || d == 31 || d == 32
        || d == 33 || d == 34 || d == 35;
    }
  }

  // ----- section 7.1: sample (R) -----

  const SAMPLE: seq<nat> := [0x305D, 0x306E, 0x30B9, 0x30D4, 0x30FC, 0x30C9, 0x3067]

  lemma {:induction false} LastDigit(c: char, x: string, k: nat, bias: nat, i: nat, w: nat)
    requires DigitOf(c).Some? && DigitOf(c).value < Clamp(k, bias)
    ensures DigitOf(c).value * w >= 0 && DecodeInt([c] + x, k, bias, i, w) == Some((i + DigitOf(c).value * w, x))
  {
    assert ([c] + x)[1..] == x;
  }

  lemma {:induction false} MoreDigits(c: char, x: string, k: nat, bias: nat, i: nat, w: nat)
    requires DigitOf(c).Some? && DigitOf(c).value >= Clamp(k, bias)
    ensures var d, t := DigitOf(c).value, Clamp(k, bias);
      && d * w >= 0 && w * (36 - t) >= 0
      && DecodeInt([c] + x, k, bias, i, w) == DecodeInt(x, k + 36, bias, i + d * w, w * (36 - t))
  {
    assert ([c] + x)[1..] == x;
  }

  /** Decoding goes on to the sample. Unfolds where DecodeFrom is named. */
  predicate Finds(s: string, n: nat, i: nat, bias: nat, out: seq<nat>) {
    forall m: nat :: m == n ==> DecodeFrom(s, m, i, bias, out) == Some(SAMPLE)
  }

  lemma {:induction false} AdaptsTo(delta: nat, points: nat, first: bool, e: nat, bias: nat)
    requires points > 0 && e <= 455 && bias == 36 * e / (e + 38)
    requires var d := if first then delta / 700 else delta / 2; e == d + d / points
    ensures Adapts(delta, points, first, bias)
  {
  }

  /** The next number brings i to sum. */
  predicate Takes(s: string, bias: nat, i: nat, sum: nat, rest: string) {
    forall j: nat :: j == i ==> DecodeInt(s, 36, bias, j, 1) == Some((sum, rest))
  }

  /** One code point. */
  lemma {:induction false} Inserted(s: string, rest: string, n: nat, i: nat, bias: nat, out: seq<nat>, sum: nat,
                                    c: nat, at: nat, next: nat, out': seq<nat>)
    requires s != "" && Takes(s, bias, i, sum, rest) && sum >= i
    requires c == n + sum / (|out| + 1) && at == sum % (|out| + 1) <= |out|
    requires Adapts(sum - i, |out| + 1, i == 0, next)
    requires out' == InsertAt(out, at, c) && Finds(rest, c, at + 1, next, out')
    ensures Finds(s, n, i, bias, out)
  {
    assert DecodeInt(s, 36, bias, i, 1) == Some((sum, rest));
    assert Adapt(sum - i, |out| + 1, i == 0) == next;
    assert DecodeFrom(rest, c, at + 1, next, out') == Some(SAMPLE);
  }

  lemma {:induction false} NothingMore(n: nat, i: nat, bias: nat)
    ensures Finds("", n, i, bias, SAMPLE)
  {
  }

  lemma {:induction false} Number1(x: string)
    ensures DecodeInt("d9j" + x, 36, 72, 0, 1) == Some((12253, x))
  {
    MoreDigits('d', "9j" + x, 36, 72, 0, 1);
    assert "d9j" + x == ['d'] + ("9j" + x);
    MoreDigits('9', "j" + x, 72, 72, 3, 35);
    assert "9j" + x == ['9'] + ("j" + x);
    LastDigit('j', x, 108, 72, 1228, 1225);
    assert "j" + x == ['j'] + (x);
  }

  lemma {:induction false} Number2(x: string)
    ensures DecodeInt("ua" + x, 36, 17, 1, 1) == Some((21, x))
  {
    MoreDigits('u', "a" + x, 36, 17, 1, 1);
    assert "ua" + x == ['u'] + ("a" + x);
    LastDigit('a', x, 72, 17, 21, 17);
    assert "a" + x == ['a'] + (x);
  }

  lemma {:induction false} Number3(x: string)
    ensures DecodeInt("u" + x, 36, 10, 2, 1) == Some((22, x))
  {
    LastDigit('u', x, 36, 10, 2, 1);
    assert "u" + x == ['u'] + x;
  }

  lemma {:induction false} Number4(x: string)
    ensures DecodeInt("41a" + x, 36, 9, 2, 1) == Some((302, x))
  {
    MoreDigits('4', "1a" + x, 36, 9, 2, 1);
    assert "41a" + x == ['4'] + ("1a" + x);
    MoreDigits('1', "a" + x, 72, 9, 32, 10);
    assert "1a" + x == ['1'] + ("a" + x);
    LastDigit('a', x, 108, 9, 302, 100);
    assert "a" + x == ['a'] + (x);
  }

  lemma {:induction false} Number5(x: string)
    ensures DecodeInt("wc" + x, 36, 29, 3, 1) == Some((83, x))
  {
    MoreDigits('w', "c" + x, 36, 29, 3, 1);
    assert "wc" + x == ['w'] + ("c" + x);
    LastDigit('c', x, 72, 29, 25, 29);
    assert "c" + x == ['c'] + (x);
  }

  lemma {:induction false} Number6(x: string)
    ensures DecodeInt("zc" + x, 36, 20, 4, 1) == Some((69, x))
  {
    MoreDigits('z', "c" + x, 36, 20, 4, 1);
    assert "zc" + x == ['z'] + ("c" + x);
    LastDigit('c', x, 72, 20, 29, 20);
    assert "c" + x == ['c'] + (x);
  }

  lemma {:induction false} Number7(x: string)
    ensures DecodeInt("zp" + x, 36, 17, 4, 1) == Some((284, x))
  {
    MoreDigits('z', "p" + x, 36, 17, 4, 1);
    assert "zp" + x == ['z'] + ("p" + x);
    LastDigit('p', x, 72, 17, 29, 17);
    assert "p" + x == ['p'] + (x);
  }

  lemma {:induction false} Takes7()
    ensures Takes("zp", 17, 4, 284, "")
  {
    Number7("");
    assert "zp" + "" == "zp";
  }

  lemma {:induction false} Bias7()
    ensures Adapts(280, 7, false, 29)
  {
    AdaptsTo(280, 7, false, 160, 29);
  }

  lemma {:induction false} Place7()
    ensures InsertAt([0x305D, 0x306E, 0x30B9, 0x30D4, 0x30C9, 0x3067], 4, 0x30FC) ==
      [0x305D, 0x306E, 0x30B9, 0x30D4, 0x30FC, 0x30C9, 0x3067]
  {
  }

  lemma {:induction false} From7()
    ensures Finds("zp", 0x30D4, 4, 17, [0x305D, 0x306E, 0x30B9, 0x30D4, 0x30C9, 0x3067])
  {
    NothingMore(0x30FC, 5, 29);
    Takes7();
    Bias7();
    Place7();
    Inserted("zp", "", 0x30D4, 4, 17, [0x305D, 0x306E, 0x30B9, 0x30D4, 0x30C9, 0x3067], 284, 0x30FC, 4, 29,
             [0x305D, 0x306E, 0x30B9, 0x30D4, 0x30FC, 0x30C9, 0x3067]);
  }

  lemma {:induction false} Takes6()
    ensures Takes("zczp", 20, 4, 69, "zp")
  {
    Number6("zp");
    assert "zc" + "zp" == "zczp";
  }

  lemma {:induction false} Bias6()
    ensures Adapts(65, 6, false, 17)
  {
    AdaptsTo(65, 6, false, 37, 17);
  }

  lemma {:induction false} Place6()
    ensures InsertAt([0x305D, 0x306E, 0x30B9, 0x30C9, 0x3067], 3, 0x30D4) ==
      [0x305D, 0x306E, 0x30B9, 0x30D4, 0x30C9, 0x3067]
  {
  }

  lemma {:induction false} From6()
    ensures Finds("zczp", 0x30C9, 4, 20, [0x305D, 0x306E, 0x30B9, 0x30C9, 0x3067])
  {
    From7();
    Takes6();
    Bias6();
    Place6();
    Inserted("zczp", "zp", 0x30C9, 4, 20, [0x305D, 0x306E, 0x30B9, 0x30C9, 0x3067], 69, 0x30D4, 3, 17,
             [0x305D, 0x306E, 0x30B9, 0x30D4, 0x30C9, 0x3067]);
  }

  lemma {:induction false} Takes5()
    ensures Takes("wczczp", 29, 3, 83, "zczp")
  {
    Number5("zczp");
    assert "wc" + "zczp" == "wczczp";
  }

  lemma {:induction false} Bias5()
    ensures Adapts(80, 5, false, 20)
  {
    AdaptsTo(80, 5, false, 48, 20);
  }

  lemma {:induction false} Place5()
    ensures InsertAt([0x305D, 0x306E, 0x30B9, 0x3067], 3, 0x30C9) == [0x305D, 0x306E, 0x30B9, 0x30C9, 0x3067]
  {
  }

  lemma {:induction false} From5()
    ensures Finds("wczczp", 0x30B9, 3, 29, [0x305D, 0x306E, 0x30B9, 0x3067])
  {
    From6();
    Takes5();
    Bias5();
    Place5();
    Inserted("wczczp", "zczp", 0x30B9, 3, 29, [0x305D, 0x306E, 0x30B9, 0x3067], 83, 0x30C9, 3, 20,
             [0x305D, 0x306E, 0x30B9, 0x30C9, 0x3067]);
  }

  lemma {:induction false} Takes4()
    ensures Takes("41awczczp", 9, 2, 302, "wczczp")
  {
    Number4("wczczp");
    assert "41a" + "wczczp" == "41awczczp";
  }

  lemma {:induction false} Bias4()
    ensures Adapts(300, 4, false, 29)
  {
    AdaptsTo(300, 4, false, 187, 29);
  }

  lemma {:induction false} Place4()
    ensures InsertAt([0x305D, 0x306E, 0x3067], 2, 0x30B9) == [0x305D, 0x306E, 0x30B9, 0x3067]
  {
  }

  lemma {:induction false} From4()
    ensures Finds("41awczczp", 0x306E, 2, 9, [0x305D, 0x306E, 0x3067])
  {
    From5();
    Takes4();
    Bias4();
    Place4();
    Inserted("41awczczp", "wczczp", 0x306E, 2, 9, [0x305D, 0x306E, 0x3067], 302, 0x30B9, 2, 29,
             [0x305D, 0x306E, 0x30B9, 0x3067]);
  }

  lemma {:induction false} Takes3()
    ensures Takes("u41awczczp", 10, 2, 22, "41awczczp")
  {
    Number3("41awczczp");
    assert "u" + "41awczczp" == "u41awczczp";
  }

  lemma {:induction false} Bias3()
    ensures Adapts(20, 3, false, 9)
  {
    AdaptsTo(20, 3, false, 13, 9);
  }

  lemma {:induction false} Place3()
    ensures InsertAt([0x305D, 0x3067], 1, 0x306E) == [0x305D, 0x306E, 0x3067]
  {
  }

  lemma {:induction false} From3()
    ensures Finds("u41awczczp", 0x3067, 2, 10, [0x305D, 0x3067])
  {
    From4();
    Takes3();
    Bias3();
    Place3();
    Inserted("u41awczczp", "41awczczp", 0x3067, 2, 10, [0x305D, 0x3067], 22, 0x306E, 1, 9,
             [0x305D, 0x306E, 0x3067]);
  }

  lemma {:induction false} Takes2()
    ensures Takes("uau41awczczp", 17, 1, 21, "u41awczczp")
  {
    Number2("u41awczczp");
    assert "ua" + "u41awczczp" == "uau41awczczp";
  }

  lemma {:induction false} Bias2()
    ensures Adapts(20, 2, false, 10)
  {
    AdaptsTo(20, 2, false, 15, 10);
  }

  lemma {:induction false} Place2()
    ensures InsertAt([0x305D], 1, 0x3067) == [0x305D, 0x3067]
  {
  }

  lemma {:induction false} From2()
    ensures Finds("uau41awczczp", 0x305D, 1, 17, [0x305D])
  {
    From3();
    Takes2();
    Bias2();
    Place2();
    Inserted("uau41awczczp", "u41awczczp", 0x305D, 1, 17, [0x305D], 21, 0x3067, 1, 10,
             [0x305D, 0x3067]);
  }

  lemma {:induction false} Takes1()
    ensures Takes("d9juau41awczczp", 72, 0, 12253, "uau41awczczp")
  {
    Number1("uau41awczczp");
    assert "d9j" + "uau41awczczp" == "d9juau41awczczp";
  }

  lemma {:induction false} Bias1()
    ensures Adapts(12253, 1, true, 17)
  {
    AdaptsTo(12253, 1, true, 34, 17);
  }

  lemma {:induction false} Place1()
    ensures InsertAt([], 0, 0x305D) == [0x305D]
  {
  }

  lemma {:induction false} From1()
    ensures Finds("d9juau41awczczp", 128, 0, 72, [])
  {
    From2();
    Takes1();
    Bias1();
    Place1();
    Inserted("d9juau41awczczp", "uau41awczczp", 128, 0, 72, [], 12253, 0x305D, 0, 17, [0x305D]);
  }

  /** Sample (R) of section 7.1. */
  lemma {:induction false} SampleDecodes()
    ensures Decode("d9juau41awczczp") == Some(SAMPLE)
  {
    var s := "d9juau41awczczp";
    assert NoDelimiter(s);
    NoLastDelimiter(s);
    From1();
    assert DecodeFrom(s, 128, 0, 72, []) == Some(SAMPLE);
    assert s[..0] == "" && CodePoints("") == [];
  }

  // ----- labels that are written -----

  lemma {:induction false} Least1(s: seq<nat>, n: nat)
    requires |s| == 1 && s[0] < NO_CODE_POINT
    ensures Least(s, n) == if s[0] >= n then s[0] else NO_CODE_POINT
  {
    assert s[..0] == [];
  }

  lemma {:induction false} Least3(s: seq<nat>, n: nat)
    requires |s| == 3 && s[0] < NO_CODE_POINT && s[1] < NO_CODE_POINT && s[2] < NO_CODE_POINT
    ensures var x := if s[0] >= n then s[0] else NO_CODE_POINT;
      var y := if s[1] >= n && s[1] < x then s[1] else x;
      Least(s, n) == if s[2] >= n && s[2] < y then s[2] else y
  {
    var a, b := s[..1], s[..2];
    Least1(a, n);
    assert b[..1] == a;
    assert Least(b, n) == if s[1] >= n && s[1] < Least(a, n) then s[1] else Least(a, n);
  }

  // The following hold of one call each; the bound variable keeps the verifier from computing ahead.

  predicate Writes(q: nat, bias: nat, digits: string) { forall d: nat :: d == q ==> Digits(d, 36, bias) == digits }

  predicate Adapts(delta: nat, points: nat, first: bool, bias: nat) {
    points > 0 && forall d: nat :: d == delta ==> Adapt(d, points, first) == bias
  }

  predicate Finds1(s: seq<nat>, n: nat, m: nat) { forall k: nat :: k == n ==> Least(s, k) == m }

  predicate Passes(s: seq<nat>, n: nat, delta: nat, bias: nat, h: nat, first: bool, t: string) {
    ValidLabel(s) && forall m: nat :: m == n && m <= MAX_CODE_POINT + 1 ==> Pass(s, m, delta, bias, h, first) == Text(t)
  }

  predicate Scans(s: seq<nat>, n: nat, j: nat, delta: nat, bias: nat, h: nat, first: bool, t: string) {
    && ValidLabel(s) && j <= |s|
    && forall m: nat :: m == n && m <= MAX_CODE_POINT ==> Scan(s, m, j, delta, bias, h, first) == Text(t)
  }

  /** A scan that finds the code point at j writes a number. */
  lemma {:induction false} Emits(s: seq<nat>, n: nat, j: nat, delta: nat, bias: nat, h: nat, first: bool, next: nat,
                                 digits: string, t: string, all: string)
    requires n <= MAX_CODE_POINT && j < |s| && s[j] == n && all == digits + t
    requires Adapts(delta, h + 1, first, next) && Writes(delta, bias, digits)
    requires Scans(s, n, j + 1, 0, next, h + 1, false, t)
    ensures Scans(s, n, j, delta, bias, h, first, all)
  {
    assert Adapt(delta, h + 1, first) == next;
    assert Digits(delta, 36, bias) == digits && Scan(s, n, j + 1, 0, next, h + 1, false) == Text(t);
  }

  /** The first digit of a number that has more. */
  lemma {:induction false} DigitsFirst(q: nat, k: nat, bias: nat, c: char, high: nat, more: string)
    requires q >= Clamp(k, bias) && high == (q - Clamp(k, bias)) / (36 - Clamp(k, bias))
    requires c == Alphabet(Clamp(k, bias) + (q - Clamp(k, bias)) % (36 - Clamp(k, bias)))
    requires Digits(high, k + 36, bias) == more
    ensures Digits(q, k, bias) == [c] + more
  {
  }

  lemma {:induction false} DigitsLast(q: nat, k: nat, bias: nat)
    requires q < Clamp(k, bias)
    ensures Digits(q, k, bias) == [Alphabet(q)]
  {
  }

  lemma {:induction false} NoneLeft(s: seq<nat>, n: nat, delta: nat, bias: nat, h: nat)
    requires ValidLabel(s) && n <= MAX_CODE_POINT + 1 && Finds1(s, n, NO_CODE_POINT)
    ensures Passes(s, n, delta, bias, h, false, "")
  {
    assert Least(s, n) == NO_CODE_POINT;
  }

  /** A pass comes to the end of the label. */
  lemma {:induction false} ScanEnds(s: seq<nat>, n: nat, delta: nat, bias: nat, h: nat, t: string)
    requires n <= MAX_CODE_POINT && Passes(s, n + 1, delta + 1, bias, h, false, t)
    ensures Scans(s, n, |s|, delta, bias, h, false, t)
  {
    assert Pass(s, n + 1, delta + 1, bias, h, false) == Text(t);
  }

  lemma {:induction false} ScanPasses(s: seq<nat>, n: nat, j: nat, delta: nat, bias: nat, h: nat, first: bool,
                                      t: string)
    requires n <= MAX_CODE_POINT && j < |s| && s[j] != n && delta + 1 < TWO_32
    requires Scans(s, n, j + 1, if s[j] < n then delta + 1 else delta, bias, h, first, t)
    ensures Scans(s, n, j, delta, bias, h, first, t)
  {
    assert Scan(s, n, j + 1, if s[j] < n then delta + 1 else delta, bias, h, first) == Text(t);
  }

  lemma {:induction false} PassStarts(s: seq<nat>, n: nat, m: nat, delta: nat, bias: nat, h: nat, first: bool, d: nat,
                                      t: string)
    requires n <= m <= MAX_CODE_POINT && Finds1(s, n, m) && d == delta + (m - n) * (h + 1) < TWO_32
    requires Scans(s, m, 0, d, bias, h, first, t)
    ensures Passes(s, n, delta, bias, h, first, t)
  {
    assert Least(s, n) == m && Scan(s, m, 0, d, bias, h, first) == Text(t);
    var g := h + 1;
    DivParts(TWO_32 - 1 - delta, g);
    if (TWO_32 - 1 - delta) / g < m - n { MulMono(g, (TWO_32 - 1 - delta) / g + 1, m - n); }
  }

  // ----- one u with diaeresis -----

  predicate IsUmlaut(s: seq<nat>) { |s| == 1 && s[0] == 0xFC }

  lemma {:induction false} Tda2()
    ensures Digits(0, 108, 72) == "a"
  {
    DigitsLast(0, 108, 72);
  }

  lemma {:induction false} Tda1()
    ensures Digits(3, 72, 72) == "da"
  {
    Tda2();
    DigitsFirst(3, 72, 72, 'd', 0, "a");
    assert ['d'] + "a" == "da";
  }

  lemma {:induction false} Tda()
    ensures Digits(124, 36, 72) == "tda"
  {
    Tda1();
    DigitsFirst(124, 36, 72, 't', 3, "da");
    assert ['t'] + "da" == "tda";
  }

  lemma {:induction false} UmlautScan(s: seq<nat>)
    requires IsUmlaut(s)
    ensures Scans(s, 0xFC, 0, 124, 72, 0, true, "tda")
  {
    assert Finds1(s, 0xFD, NO_CODE_POINT) by { Least1(s, 0xFD); }
    NoneLeft(s, 0xFD, 1, 0, 1);
    ScanEnds(s, 0xFC, 0, 0, 1, "");
    assert Writes(124, 72, "tda") by { Tda(); }
    assert Adapts(124, 1, true, 0);
    assert "tda" + "" == "tda";
    Emits(s, 0xFC, 0, 124, 72, 0, true, 0, "tda", "", "tda");
  }

  lemma {:induction false} UmlautPass(s: seq<nat>)
    requires IsUmlaut(s)
    ensures Passes(s, 128, 0, 72, 0, true, "tda")
  {
    UmlautScan(s);
    assert Finds1(s, 128, 0xFC) by { Least1(s, 128); }
    PassStarts(s, 128, 0xFC, 0, 72, 0, true, 124, "tda");
  }

  lemma {:induction false} UmlautLabel(s: seq<nat>)
    requires IsUmlaut(s)
    ensures ValidLabel(s) && Encoded(s) == Text("tda") && LabelText(s) == "xn--tda"
  {
    assert s[..0] == [];
    assert Below(s, 128) == [];
    UmlautPass(s);
    WholeText(s, "tda");
    assert "xn--" + "tda" == "xn--tda";
  }

  /** The text of a label without ASCII characters. */
  lemma {:induction false} WholeText(s: seq<nat>, t: string)
    requires s != [] && Below(s, 128) == [] && Passes(s, 128, 0, 72, 0, true, t)
    ensures ValidLabel(s) && Encoded(s) == Text(t) && LabelText(s) == "xn--" + t
  {
    assert Pass(s, 128, 0, 72, 0, true) == Text(t);
    assert Literal(s) == "" && "" + t == t;
  }

  // ----- the test label of the Internet Assigned Numbers Authority -----

  predicate IsTest(s: seq<nat>) { |s| == 3 && s[0] == 0x30C6 && s[1] == 0x30B9 && s[2] == 0x30C8 }

  lemma {:induction false} Zck2()
    ensures Digits(10, 108, 72) == "k"
  {
    DigitsLast(10, 108, 72);
  }

  lemma {:induction false} Zck1()
    ensures Digits(352, 72, 72) == "ck"
  {
    Zck2();
    DigitsFirst(352, 72, 72, 'c', 10, "k");
    assert ['c'] + "k" == "ck";
  }

  lemma {:induction false} Zck()
    ensures Digits(12345, 36, 72) == "zck"
  {
    Zck1();
    DigitsFirst(12345, 36, 72, 'z', 352, "ck");
    assert ['z'] + "ck" == "zck";
  }

  lemma {:induction false} Za1()
    ensures Digits(0, 72, 17) == "a"
  {
    DigitsLast(0, 72, 17);
  }

  lemma {:induction false} Za()
    ensures Digits(25, 36, 17) == "za"
  {
    Za1();
    DigitsFirst(25, 36, 17, 'z', 0, "a");
    assert ['z'] + "a" == "za";
  }

  lemma {:induction false} Aitch()
    ensures Digits(7, 36, 11) == "h"
  {
    DigitsLast(7, 36, 11);
  }

  lemma {:induction false} ThirdScan(s: seq<nat>)
    requires IsTest(s)
    ensures Scans(s, 0x30C8, 2, 7, 11, 2, false, "h")
  {
    var next := Adapt(7, 3, false);
    assert Finds1(s, 0x30C9, NO_CODE_POINT) by { Least3(s, 0x30C9); }
    NoneLeft(s, 0x30C9, 1, next, 3);
    ScanEnds(s, 0x30C8, 0, next, 3, "");
    assert Writes(7, 11, "h") by { Aitch(); }
    assert "h" + "" == "h";
    Emits(s, 0x30C8, 2, 7, 11, 2, false, next, "h", "", "h");
  }

  lemma {:induction false} ThirdPass(s: seq<nat>)
    requires IsTest(s)
    ensures Passes(s, 0x30C7, 2, 11, 2, false, "h")
  {
    ThirdScan(s);
    ScanPasses(s, 0x30C8, 1, 6, 11, 2, false, "h");
    ScanPasses(s, 0x30C8, 0, 5, 11, 2, false, "h");
    assert Finds1(s, 0x30C7, 0x30C8) by { Least3(s, 0x30C7); }
    PassStarts(s, 0x30C7, 0x30C8, 2, 11, 2, false, 5, "h");
  }

  lemma {:induction false} SecondSkips(s: seq<nat>)
    requires IsTest(s)
    ensures Scans(s, 0x30C6, 1, 0, 11, 2, false, "h")
  {
    ThirdPass(s);
    ScanEnds(s, 0x30C6, 1, 11, 2, "h");
    ScanPasses(s, 0x30C6, 2, 1, 11, 2, false, "h");
    ScanPasses(s, 0x30C6, 1, 0, 11, 2, false, "h");
  }

  lemma {:induction false} SecondNumber()
    ensures Writes(25, 17, "za") && Adapts(25, 2, false, 11)
  {
    assert Writes(25, 17, "za") by { Za(); }
    assert Adapts(25, 2, false, 11);
  }

  lemma {:induction false} SecondScan(s: seq<nat>)
    requires IsTest(s)
    ensures Scans(s, 0x30C6, 0, 25, 17, 1, false, "zah")
  {
    SecondSkips(s);
    SecondNumber();
    assert "za" + "h" == "zah";
    Emits(s, 0x30C6, 0, 25, 17, 1, false, 11, "za", "h", "zah");
  }

  lemma {:induction false} SecondPass(s: seq<nat>)
    requires IsTest(s)
    ensures Passes(s, 0x30BA, 1, 17, 1, false, "zah")
  {
    SecondScan(s);
    assert Finds1(s, 0x30BA, 0x30C6) by { Least3(s, 0x30BA); }
    PassStarts(s, 0x30BA, 0x30C6, 1, 17, 1, false, 25, "zah");
  }

  lemma {:induction false} FirstScan(s: seq<nat>)
    requires IsTest(s)
    ensures Scans(s, 0x30B9, 1, 12345, 72, 0, true, "zckzah")
  {
    SecondPass(s);
    ScanEnds(s, 0x30B9, 0, 17, 1, "zah");
    ScanPasses(s, 0x30B9, 2, 0, 17, 1, false, "zah");
    assert Writes(12345, 72, "zck") by { Zck(); }
    assert Adapts(12345, 1, true, 17);
    assert "zck" + "zah" == "zckzah";
    Emits(s, 0x30B9, 1, 12345, 72, 0, true, 17, "zck", "zah", "zckzah");
  }

  lemma {:induction false} FirstPass(s: seq<nat>)
    requires IsTest(s)
    ensures Passes(s, 128, 0, 72, 0, true, "zckzah")
  {
    FirstScan(s);
    ScanPasses(s, 0x30B9, 0, 12345, 72, 0, true, "zckzah");
    assert Finds1(s, 128, 0x30B9) by { Least3(s, 128); }
    PassStarts(s, 128, 0x30B9, 0, 72, 0, true, 12345, "zckzah");
  }

  /** The bias is adapted after the first code point and after later ones. */
  lemma {:induction false} TestLabel(s: seq<nat>)
    requires IsTest(s)
    ensures ValidLabel(s) && Encoded(s) == Text("zckzah") && LabelText(s) == "xn--zckzah"
  {
    assert Below(s, 128) == [] by {
      assert s[..2][..1][..0] == [];
    }
    FirstPass(s);
    WholeText(s, "zckzah");
    assert "xn--" + "zckzah" == "xn--zckzah";
  }

  // ----- section 3.1 of RFC 3490: what separates labels -----

  const SEPARATORS: seq<nat> := [0x002E, 0x3002, 0xFF0E, 0xFF61]

  /** Labels with separators between them. */
  function Interleaved(ls: seq<seq<nat>>, ds: seq<nat>): (s: seq<nat>)
    requires |ls| == |ds| + 1
  {
    if ds == [] then ls[0] else ls[0] + [ds[0]] + Interleaved(ls[1..], ds[1..])
  }

  predicate Clean(l: seq<nat>) { forall k :: 0 <= k < |l| ==> !IsSeparator(l[k]) }

  predicate IsSeparator(c: nat) { c in SEPARATORS }

  lemma {:induction false} DotIsSeparator(c: nat)
    ensures IsDot(c) <==> IsSeparator(c)
  {
    assert SEPARATORS[0] == 0x2E && SEPARATORS[1] == 0x3002 && SEPARATORS[2] == 0xFF0E && SEPARATORS[3] == 0xFF61;
  }

  lemma {:induction false} FirstClean(s: seq<nat>)
    ensures Clean(s[..FirstDot(s)]) && (FirstDot(s) < |s| ==> IsSeparator(s[FirstDot(s)]))
  {
    var i := FirstDot(s);
    forall k | 0 <= k < i ensures !IsSeparator(s[..i][k]) { DotIsSeparator(s[k]); }
    if i < |s| { DotIsSeparator(s[i]); }
  }

  /** s is these labels, without separators in them, with these separators between them. */
  predicate IsCut(s: seq<nat>, ls: seq<seq<nat>>, ds: seq<nat>) {
    && |ls| == |ds| + 1 && s == Interleaved(ls, ds)
    && (forall i :: 0 <= i < |ds| ==> IsSeparator(ds[i])) && (forall i :: 0 <= i < |ls| ==> Clean(ls[i]))
  }

  lemma {:induction false} CutMore(l: seq<nat>, d: nat, s: seq<nat>, ls: seq<seq<nat>>, ds: seq<nat>)
    requires Clean(l) && IsSeparator(d) && IsCut(s, ls, ds)
    ensures IsCut(l + [d] + s, [l] + ls, [d] + ds)
  {
    var ms, es := [l] + ls, [d] + ds;
    assert ms[1..] == ls && es[1..] == ds && ms[0] == l && es[0] == d;
  }

  /** A name is its labels with one of the four full stops between each two of them, and none in a label. */
  lemma {:induction false} LabelsExact(s: seq<nat>) returns (ds: seq<nat>)
    ensures IsCut(s, Labels(s), ds)
    decreases |s|
  {
    var i := FirstDot(s);
    FirstClean(s);
    if i == |s| {
      ds := [];
      assert s[..i] == s;
    } else {
      var rest := s[i + 1..];
      var es := LabelsExact(rest);
      ds := [s[i]] + es;
      CutMore(s[..i], s[i], rest, Labels(rest), es);
      assert s == s[..i] + [s[i]] + rest;
    }
  }

  /** Texts with a full stop, U+002E, between each two of them. */
  function Dotted(ts: seq<string>): (t: string)
    requires ts != []
  {
    if |ts| == 1 then ts[0] else ts[0] + "." + Dotted(ts[1..])
  }

  /** What is written for each label. */
  predicate AreWritten(ls: seq<seq<nat>>, ts: seq<string>) {
    |ls| == |ts| && forall k :: 0 <= k < |ls| ==> Read(ls[k]) && LabelOut(ls[k]) == Written(ts[k])
  }

  lemma {:induction false} MoreWritten(l: seq<nat>, t: string, ls: seq<seq<nat>>, ts: seq<string>)
    requires Read(l) && LabelOut(l) == Written(t) && AreWritten(ls, ts)
    ensures AreWritten([l] + ls, [t] + ts)
  {
  }

  /** What is written for a name is what is written for its labels, with full stops. */
  lemma {:induction false} DomainDotted(s: seq<nat>) returns (ts: seq<string>)
    requires Read(s) && Domain(s).Written?
    ensures AreWritten(Labels(s), ts) && ts != [] && Domain(s).s == Dotted(ts)
    decreases |s|
  {
    var i := FirstDot(s);
    if i == |s| {
      ts := OnlyWritten(s);
    } else {
      FirstWritten(s, i);
      var us := DomainDotted(s[i + 1..]);
      ts := DottedMore(LabelOut(s[..i]).s, us);
      LabelsFirst(s, i);
      MoreWritten(s[..i], LabelOut(s[..i]).s, Labels(s[i + 1..]), us);
    }
  }

  lemma {:induction false} OnlyWritten(s: seq<nat>) returns (ts: seq<string>)
    requires Read(s) && Domain(s).Written? && FirstDot(s) == |s|
    ensures AreWritten(Labels(s), ts) && |ts| == 1 && Domain(s).s == Dotted(ts)
  {
    DomainOne(s);
    ts := [Domain(s).s];
    assert Labels(s) == [s];
  }

  lemma {:induction false} FirstWritten(s: seq<nat>, i: nat)
    requires Read(s) && i == FirstDot(s) < |s| && Domain(s).Written?
    ensures LabelOut(s[..i]).Written? && Domain(s[i + 1..]).Written?
    ensures Domain(s).s == LabelOut(s[..i]).s + "." + Domain(s[i + 1..]).s
  {
    DomainSplit(s, i);
  }

  lemma {:induction false} DottedMore(t: string, us: seq<string>) returns (ts: seq<string>)
    requires us != []
    ensures ts == [t] + us && Dotted(ts) == t + "." + Dotted(us)
  {
    ts := [t] + us;
    assert ts[1..] == us;
  }

  lemma {:induction false} LabelsFirst(s: seq<nat>, i: nat)
    requires i == FirstDot(s) < |s|
    ensures Labels(s) == [s[..i]] + Labels(s[i + 1..])
  {
  }

  // ----- section 3.1 of RFC 3492: the literal part -----

  /** Behind the prefix of section 5 of RFC 3490 stand the ASCII characters in order, then a hyphen if there are any,
      and then no other hyphen. */
  lemma {:induction false} LiteralFirst(s: seq<nat>) returns (digits: string)
    requires ValidLabel(s) && Wide(s) && Encoded(s).Text?
    ensures var ascii := Chars(Below(s, 128));
      LabelText(s) == "xn--" + (ascii + (if ascii == "" then "" else "-") + digits) && '-' !in digits
  {
    var p := Pass(s, 128, 0, 72, |Below(s, 128)|, true);
    PassNoDelimiter(s, 128, 0, 72, |Below(s, 128)|, true);
    digits := p.s;
  }
}
