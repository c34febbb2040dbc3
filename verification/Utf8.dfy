/** libuv's UTF-8 reader against the encoding of section 3 of RFC 3629. Bit operations are written as the arithmetic
    they perform. */
module Utf8 {
  import opened Common
  import opened Arithmetic
  import opened PunycodeSpec

  predicate Scalar(c: nat) { c <= MAX_CODE_POINT && !(0xD800 <= c <= 0xDFFF) }

  /** The encoding of RFC 3629. */
  function Bytes(c: nat): (b: seq<Byte>)
    requires c <= MAX_CODE_POINT
    ensures 1 <= |b| <= 4
  {
    if c < 0x80 then [c]
    else if c < 0x800 then [0xC0 + c / 64, 0x80 + c % 64]
    else if c < 0x1_0000 then [0xE0 + c / 0x1000, 0x80 + c / 64 % 64, 0x80 + c % 64]
    else [0xF0 + c / 0x4_0000, 0x80 + c / 0x1000 % 64, 0x80 + c / 64 % 64, 0x80 + c % 64]
  }

  function AllBytes(cs: seq<nat>): (b: seq<Byte>)
    requires forall i :: 0 <= i < |cs| ==> Scalar(cs[i])
  {
    if cs == [] then [] else
      assert Scalar(cs[0]);
      Bytes(cs[0]) + AllBytes(cs[1..])
  }

  // ----- the reader -----

  /** How many bytes the reader takes, by the first. */
  function Need(a: Byte): (n: nat)
    ensures 1 <= n <= 4
  {
    if a < 0x80 || a > 0xF7 then 1 else if a > 0xEF then 4 else if a > 0xDF then 3 else if a > 0xBF then 2 else 1
  }

  /** a << 18 | (b & 63) << 12 | (c & 63) << 6 | d & 63, for a below 8. */
  function Joined(a: nat, b: Byte, c: Byte, d: Byte): (v: nat) {
    a * 0x4_0000 + b % 64 * 0x1000 + c % 64 * 64 + d % 64
  }

  /** 0x80 == (0xC0 & (b ^ c ^ d)): among the three bytes bit 7 is set an odd and bit 6 an even number of times. */
  predicate TopsPass(b: Byte, c: Byte, d: Byte) {
    (b / 128 + c / 128 + d / 128) % 2 == 1 && (b / 64 + c / 64 + d / 64) % 2 == 0
  }

  /** The checks behind the switch of uv__utf8_decode1_slow. */
  function Assemble(a: nat, b: Byte, c: Byte, d: Byte, min: nat): (r: nat) {
    var v := Joined(a, b, c, d);
    if TopsPass(b, c, d) && v >= min && Scalar(v) then v else NO_CODE_POINT
  }

  /** What the reader makes of the bytes it takes. */
  function Value(s: seq<Byte>): (r: nat)
    requires s != [] && |s| == Need(s[0])
    ensures r <= MAX_CODE_POINT || r == NO_CODE_POINT
  {
    var a := s[0];
    if a < 0x80 then a
    else if a > 0xF7 then NO_CODE_POINT
    else if a > 0xEF then Assemble(a % 8, s[1], s[2], s[3], 0x1_0000)
    else if a > 0xDF then Assemble(0, 0x80 + a % 16, s[1], s[2], 0x800)
    else if a > 0xBF then Assemble(0, 0x80, 0x80 + a % 32, s[1], 0x80)
    else NO_CODE_POINT
  }

  /** uv__utf8_decode1, on any bytes. The switch of the slow path is on the difference from the end of the text to the
      position, which is negative or zero inside the text: it starts at its default and does not see where the text
      ends, so the bytes taken must be there. Once, behind the end, the difference is one; what is read then is not
      used. */
  method Decode1(s: seq<Byte>, p: nat) returns (r: nat, p': nat)
    requires p < |s| && p + Need(s[p]) <= |s|
    ensures p' == p + Need(s[p]) && r == Value(s[p..p'])
  {
    var a: nat := s[p];
    ghost var w := s[p..p + Need(s[p])];
    p' := p + 1;
    assert w[0] == s[p];
    if a < 128 {
      return a, p';
    }
    if a > 0xF7 {
      return NO_CODE_POINT, p';
    }
    var b: Byte, c: Byte, d: Byte, min;
    if a > 0xEF {
      min, a, b, c, d := 0x1_0000, a % 8, s[p'], s[p' + 1], s[p' + 2];
      assert w[1] == b && w[2] == c && w[3] == d;
      p' := p' + 3;
    } else if a > 0xDF {
      min, a, b, c, d := 0x800, 0, 0x80 + a % 16, s[p'], s[p' + 1];
      assert w[1] == c && w[2] == d;
      p' := p' + 2;
    } else if a > 0xBF {
      min, a, b, c, d := 0x80, 0, 0x80, 0x80 + a % 32, s[p'];
      assert w[1] == d;
      p' := p' + 1;
    } else {
      return NO_CODE_POINT, p';
    }
    assert Value(w) == Assemble(a, b, c, d, min);
    if !TopsPass(b, c, d) {
      return NO_CODE_POINT, p';
    }
    r := Joined(a, b, c, d);
    if r < min || r > 0x10FFFF || (r >= 0xD800 && r <= 0xDFFF) {
      r := NO_CODE_POINT;
    }
  }

  // ----- which bytes are accepted -----

  predicate IsCont(x: Byte) { 0x80 <= x < 0xC0 }

  /** The continuation byte with the payload of x. */
  function Cont(x: Byte): (y: Byte)
    ensures IsCont(y) && (IsCont(x) ==> y == x)
  {
    0x80 + x % 64
  }

  /** The same bytes with proper continuation bytes. */
  function Mended(s: seq<Byte>): (t: seq<Byte>)
    requires s != []
    ensures |t| == |s| && t[0] == s[0] && forall i :: 1 <= i < |s| ==> t[i] == Cont(s[i])
  {
    [s[0]] + seq(|s| - 1, i requires 0 <= i < |s| - 1 => Cont(s[i + 1]))
  }

  /** The only test of the continuation bytes, as a condition on the bytes themselves. */
  predicate MarksPass(s: seq<Byte>)
    requires s != [] && |s| == Need(s[0])
  {
    match |s|
    case 2 => IsCont(s[1])
    case 3 => s[1] / 64 == s[2] / 64
    case 4 => TopsPass(s[1], s[2], s[3])
    case _ => true
  }

  lemma {:induction false} TopsOfTwo(b: Byte, c: Byte, d: Byte)
    requires IsCont(b)
    ensures TopsPass(b, c, d) <==> c / 64 == d / 64
    ensures IsCont(c) ==> (TopsPass(b, c, d) <==> IsCont(d))
  {
    assert c / 64 / 2 == c / 128 && d / 64 / 2 == d / 128;
  }

  lemma {:induction false} Digit(c: nat, q: nat, w: nat)
    requires w < 64
    ensures q * 64 + w == c <==> q == c / 64 && w == c % 64
  {
    DivParts(c, 64);
    if q * 64 + w == c { DivUnique(c, 64, q, w); }
  }

  /** Digits to the base 64. */
  lemma {:induction false} Digits4(a: nat, u: nat, v: nat, w: nat, c: nat)
    requires u < 64 && v < 64 && w < 64
    ensures a * 0x4_0000 + u * 0x1000 + v * 64 + w == c <==>
      a == c / 0x4_0000 && u == c / 0x1000 % 64 && v == c / 64 % 64 && w == c % 64
  {
    var p := a * 64 + u;
    var q := p * 64 + v;
    assert q * 64 + w == a * 0x4_0000 + u * 0x1000 + v * 64 + w;
    Digit(c, q, w);
    Digit(c / 64, p, v);
    Digit(c / 64 / 64, a, u);
    DivTwice(c, 64, 64);
    DivTwice(c, 0x1000, 64);
  }

  lemma {:induction false} JoinedIs(a: nat, x: Byte, y: Byte, z: Byte, c: nat)
    ensures Joined(a, x, y, z) == c <==>
      && a == c / 0x4_0000 && Cont(x) == 0x80 + c / 0x1000 % 64
      && Cont(y) == 0x80 + c / 64 % 64 && Cont(z) == 0x80 + c % 64
  {
    Digits4(a, x % 64, y % 64, z % 64, c);
  }

  /** The leading byte of n marks with payload u, below m. */
  lemma {:induction false} Lead(a: Byte, base: nat, m: nat, u: nat)
    requires (base == 0xC0 && m == 32) || (base == 0xE0 && m == 16) || (base == 0xF0 && m == 8)
    requires base <= a < base + m
    ensures a % m == a - base && (a % m == u <==> a == base + u)
  {
  }

  lemma {:induction false} Two(a: Byte, z: Byte, c: nat)
    requires 0xBF < a <= 0xDF && 0x80 <= c < 0x800
    ensures Joined(0, 0x80, 0x80 + a % 32, z) == c <==> a == 0xC0 + c / 64 && Cont(z) == 0x80 + c % 64
  {
    JoinedIs(0, 0x80, 0x80 + a % 32, z, c);
    Lead(a, 0xC0, 32, c / 64);
    assert c / 0x4_0000 == 0 && c / 0x1000 == 0 && c / 64 < 32;
  }

  lemma {:induction false} Three(a: Byte, y: Byte, z: Byte, c: nat)
    requires 0xDF < a <= 0xEF && 0x800 <= c < 0x1_0000
    ensures Joined(0, 0x80 + a % 16, y, z) == c <==>
      a == 0xE0 + c / 0x1000 && Cont(y) == 0x80 + c / 64 % 64 && Cont(z) == 0x80 + c % 64
  {
    JoinedIs(0, 0x80 + a % 16, y, z, c);
    Lead(a, 0xE0, 16, c / 0x1000);
    assert c / 0x4_0000 == 0 && c / 0x1000 < 16;
  }

  lemma {:induction false} Four(a: Byte, x: Byte, y: Byte, z: Byte, c: nat)
    requires 0xEF < a <= 0xF7 && 0x1_0000 <= c <= MAX_CODE_POINT
    ensures Joined(a % 8, x, y, z) == c <==>
      && a == 0xF0 + c / 0x4_0000 && Cont(x) == 0x80 + c / 0x1000 % 64
      && Cont(y) == 0x80 + c / 64 % 64 && Cont(z) == 0x80 + c % 64
  {
    JoinedIs(a % 8, x, y, z, c);
    Lead(a, 0xF0, 8, c / 0x4_0000);
  }

  /** The first byte of an encoding says how long it is. */
  lemma {:induction false} LeadOf(c: nat)
    requires c <= MAX_CODE_POINT
    ensures Bytes(c)[0] <= 0xF7 && !(0x80 <= Bytes(c)[0] <= 0xBF) && Need(Bytes(c)[0]) == |Bytes(c)|
  {
  }

  lemma {:induction false} AssembleIs(a: nat, b: Byte, c: Byte, d: Byte, min: nat, v: nat)
    ensures Assemble(a, b, c, d, min) == v && v != NO_CODE_POINT <==>
      Scalar(v) && v >= min && TopsPass(b, c, d) && Joined(a, b, c, d) == v
  {
  }

  lemma {:induction false} ExactTwo(s: seq<Byte>, c: nat)
    requires |s| == 2 && 0xBF < s[0] <= 0xDF
    ensures Value(s) == c && c != NO_CODE_POINT <==> Scalar(c) && MarksPass(s) && Mended(s) == Bytes(c)
  {
    var a, z := s[0], s[1];
    AssembleIs(0, 0x80, 0x80 + a % 32, z, 0x80, c);
    TopsOfTwo(0x80, 0x80 + a % 32, z);
    if 0x80 <= c < 0x800 {
      Two(a, z, c);
    } else {
      LargeTwo(a, z);
    }
  }

  lemma {:induction false} LargeTwo(a: Byte, z: Byte)
    requires 0xBF < a <= 0xDF
    ensures Joined(0, 0x80, 0x80 + a % 32, z) < 0x800
  {
    Lead(a, 0xC0, 32, 0);
  }

  lemma {:induction false} ExactThree(s: seq<Byte>, c: nat)
    requires |s| == 3 && 0xDF < s[0] <= 0xEF
    ensures Value(s) == c && c != NO_CODE_POINT <==> Scalar(c) && MarksPass(s) && Mended(s) == Bytes(c)
  {
    var a, y, z := s[0], s[1], s[2];
    AssembleIs(0, 0x80 + a % 16, y, z, 0x800, c);
    TopsOfTwo(0x80 + a % 16, y, z);
    if 0x800 <= c < 0x1_0000 {
      Three(a, y, z, c);
      MendedThree(s, c);
    } else {
      LargeThree(a, y, z);
      if Scalar(c) { LeadOf(c); }
    }
  }

  lemma {:induction false} MendedThree(s: seq<Byte>, c: nat)
    requires |s| == 3 && 0x800 <= c < 0x1_0000
    ensures Mended(s) == Bytes(c) <==>
      s[0] == 0xE0 + c / 0x1000 && Cont(s[1]) == 0x80 + c / 64 % 64 && Cont(s[2]) == 0x80 + c % 64
  {
    var t, b := Mended(s), Bytes(c);
    assert t[0] == b[0] && t[1] == b[1] && t[2] == b[2] ==> t == b;
  }

  lemma {:induction false} LargeThree(a: Byte, y: Byte, z: Byte)
    requires 0xDF < a <= 0xEF
    ensures Joined(0, 0x80 + a % 16, y, z) < 0x1_0000
  {
    Lead(a, 0xE0, 16, 0);
  }

  lemma {:induction false} ExactFour(s: seq<Byte>, c: nat)
    requires |s| == 4 && 0xEF < s[0] <= 0xF7
    ensures Value(s) == c && c != NO_CODE_POINT <==> Scalar(c) && MarksPass(s) && Mended(s) == Bytes(c)
  {
    var a, x, y, z := s[0], s[1], s[2], s[3];
    AssembleIs(a % 8, x, y, z, 0x1_0000, c);
    if 0x1_0000 <= c <= MAX_CODE_POINT {
      Four(a, x, y, z, c);
    }
  }

  /** The reader accepts exactly the bytes that become the encoding of a scalar value when their continuation bytes
      are mended, provided that the top bits of those bytes pass its test. So overlong forms, surrogates and values
      above the last code point are refused. */
  lemma {:induction false} ValueExact(s: seq<Byte>, c: nat)
    requires s != [] && |s| == Need(s[0])
    ensures Value(s) == c && c != NO_CODE_POINT <==> Scalar(c) && MarksPass(s) && Mended(s) == Bytes(c)
  {
    if |s| == 2 {
      ExactTwo(s, c);
    } else if |s| == 3 {
      ExactThree(s, c);
    } else if |s| == 4 {
      ExactFour(s, c);
    } else if Scalar(c) {
      LeadOf(c);
    }
  }

  predicate Marked(s: seq<Byte>) { forall i :: 1 <= i < |s| ==> IsCont(s[i]) }

  /** On bytes with proper continuation bytes the reader accepts exactly the encodings of RFC 3629. */
  lemma {:induction false} MarkedExact(s: seq<Byte>, c: nat)
    requires s != [] && |s| == Need(s[0]) && Marked(s)
    ensures Value(s) == c && c != NO_CODE_POINT <==> Scalar(c) && s == Bytes(c)
  {
    ValueExact(s, c);
    assert Mended(s) == s;
    assert MarksPass(s);
  }

  /** Without them it accepts malformed bytes, whatever the top bits of two last bytes are: the test only asks that
      they are the same. So E1 41 41 is read as the code point 1041. */
  lemma {:induction false} MalformedAccepted(a: Byte, y: Byte, z: Byte)
    requires 0xE1 <= a <= 0xEC && y / 64 == z / 64
    ensures Value([a, y, z]) == (a - 0xE0) * 0x1000 + y % 64 * 64 + z % 64
  {
    var s: seq<Byte> := [a, y, z];
    LaxThree(a, y, z);
    assert |s| == Need(s[0]) && s[1] == y && s[2] == z;
  }

  lemma {:induction false} LaxThree(a: Byte, y: Byte, z: Byte)
    requires 0xE1 <= a <= 0xEC && y / 64 == z / 64
    ensures Assemble(0, 0x80 + a % 16, y, z, 0x800) == (a - 0xE0) * 0x1000 + y % 64 * 64 + z % 64
  {
    var b: Byte := 0x80 + a % 16;
    TopsOfTwo(b, y, z);
    Lead(a, 0xE0, 16, a - 0xE0);
    assert b % 64 == a - 0xE0;
    AssembleIs(0, b, y, z, 0x800, Joined(0, b, y, z));
  }

  // ----- whole texts -----

  lemma {:induction false} EncodingRead(c: nat)
    requires Scalar(c)
    ensures Need(Bytes(c)[0]) == |Bytes(c)| && Value(Bytes(c)) == c
  {
    LeadOf(c);
    MarkedExact(Bytes(c), c);
  }

  /** The complete characters at the beginning of a text. */
  function Characters(t: seq<Byte>): (cs: seq<nat>)
    ensures |cs| <= |t| && forall i :: 0 <= i < |cs| ==> cs[i] <= MAX_CODE_POINT || cs[i] == NO_CODE_POINT
  {
    if t == [] || |t| < Need(t[0]) then []
    else
      var n := Need(t[0]);
      [Value(t[..n])] + Characters(t[n..])
  }

  /** The memory from p on, in which a text ends at pe, holds every byte that is read. */
  predicate Readable(mem: seq<Byte>, p: nat, pe: nat)
    decreases pe + 1 - p
  {
    p <= pe ==> p < |mem| && p + Need(mem[p]) <= |mem| && Readable(mem, p + Need(mem[p]), pe)
  }

  /** foreach_codepoint over the text from p to pe: the loop runs once for each complete character. It reads one more
      at the end, and takes a character that the end cuts off from the memory behind, but uses neither. */
  method ForEach(mem: seq<Byte>, p: nat, pe: nat) returns (cs: seq<nat>)
    requires p <= pe && Readable(mem, p, pe)
    ensures pe < |mem| && cs == Characters(mem[p..pe])
  {
    cs := [];
    var q := p;
    Within(mem, p, pe);
    ghost var goal := Characters(mem[p..pe]);
    while true
      invariant p <= q <= pe < |mem| && Readable(mem, q, pe) && Goes(mem, q, pe, cs, goal)
      decreases pe - q
    {
      var c;
      GoesOn(mem, q, pe, cs, goal);
      if q <= pe {
        c, q := Decode1(mem, q);
      }
      if q > pe {
        break;
      }
      cs := cs + [c];
    }
  }

  /** With cs read, the rest of the text completes them to `goal`. */
  ghost predicate Goes(mem: seq<Byte>, p: nat, pe: nat, cs: seq<nat>, goal: seq<nat>) {
    p <= pe <= |mem| && cs + Characters(mem[p..pe]) == goal
  }

  lemma {:induction false} GoesOn(mem: seq<Byte>, p: nat, pe: nat, cs: seq<nat>, goal: seq<nat>)
    requires p <= pe < |mem| && p + Need(mem[p]) <= |mem| && Goes(mem, p, pe, cs, goal)
    ensures var q := p + Need(mem[p]);
      if q > pe then cs == goal else Goes(mem, q, pe, cs + [Value(mem[p..q])], goal)
  {
    var q := p + Need(mem[p]);
    NextCharacter(mem, p, pe);
    if q > pe {
      assert cs + [] == cs;
    } else {
      Regroup(cs, [Value(mem[p..q])], Characters(mem[q..pe]));
    }
  }

  lemma {:induction false} Within(mem: seq<Byte>, p: nat, pe: nat)
    requires p <= pe && Readable(mem, p, pe)
    ensures pe < |mem|
    decreases pe - p
  {
    var q := p + Need(mem[p]);
    if q <= pe { Within(mem, q, pe); }
  }

  lemma {:induction false} NextCharacter(mem: seq<Byte>, p: nat, pe: nat)
    requires p <= pe < |mem| && p + Need(mem[p]) <= |mem|
    ensures var q := p + Need(mem[p]);
      Characters(mem[p..pe]) == if q > pe then [] else [Value(mem[p..q])] + Characters(mem[q..pe])
  {
    var t, n := mem[p..pe], Need(mem[p]);
    if p < pe {
      assert t[0] == mem[p];
      if p + n <= pe { assert t[..n] == mem[p..p + n] && t[n..] == mem[p + n..pe]; }
    }
  }

  lemma {:induction false} FirstCharacter(c: nat, rest: seq<Byte>)
    requires Scalar(c)
    ensures Characters(Bytes(c) + rest) == [c] + Characters(rest)
  {
    var t, n := Bytes(c) + rest, |Bytes(c)|;
    EncodingRead(c);
    assert t[0] == Bytes(c)[0] && t[..n] == Bytes(c) && t[n..] == rest;
  }

  /** A well-formed text is read as the code points it was made of. A character that the end cuts off is not refused:
      it is dropped. */
  lemma {:induction false} CutDropped(cs: seq<nat>, cut: seq<Byte>)
    requires forall i :: 0 <= i < |cs| ==> Scalar(cs[i])
    requires cut == [] || |cut| < Need(cut[0])
    ensures Characters(AllBytes(cs) + cut) == cs
    decreases |cs|
  {
    if cs == [] {
      assert AllBytes(cs) + cut == cut;
    } else {
      assert Scalar(cs[0]);
      var rest := AllBytes(cs[1..]);
      CutDropped(cs[1..], cut);
      FirstCharacter(cs[0], rest + cut);
      Regroup(Bytes(cs[0]), rest, cut);
      assert cs == [cs[0]] + cs[1..];
    }
  }

  // ----- section 7 of RFC 3629 -----

  /** The samples: not identical to, alpha, three syllables of Hangul and a rare ideograph, with the byte order mark. */
  lemma {:induction false} Samples()
    ensures Bytes(0x41) == [0x41] && Bytes(0x2262) == [0xE2, 0x89, 0xA2] && Bytes(0x0391) == [0xCE, 0x91]
    ensures Bytes(0xD55C) == [0xED, 0x95, 0x9C] && Bytes(0xAD6D) == [0xEA, 0xB5, 0xAD]
    ensures Bytes(0xC5B4) == [0xEC, 0x96, 0xB4]
    ensures Bytes(0xFEFF) == [0xEF, 0xBB, 0xBF] && Bytes(0x233B4) == [0xF0, 0xA3, 0x8E, 0xB4]
    ensures Scalar(0xD7FF) && !Scalar(0xD800) && !Scalar(0xDFFF) && Scalar(0xE000)
    ensures Scalar(0x10_FFFF) && !Scalar(0x11_0000)
  {
  }
}
