/** Base-128 varints and ZigZag integers as nanopb writes and reads them.
    Bit operations on unsigned words are written as the arithmetic they perform. */
module Varint {
  import opened Common
  import opened Arithmetic

  datatype Error =
    | EndOfStream
    | VarintOverflow
    | InvalidWireType
    | InvalidDataSize
    | ParentTooShort
    | ArrayOverflow
    | IntegerTooLarge
    | BytesOverflow
    | StringOverflow
    | SizeTooLarge
    | WrongFixedLength
    | WrongFixedCount
    | MissingRequired

  /** A value together with the input that is left, or the first error. */
  datatype Parsed<+T> = Ok(value: T, rest: seq<Byte>) | Err(error: Error)

  // ----- the wire form -----

  /** Groups of seven bits, least significant first, all but the last marked. */
  function Encode(v: nat): (s: seq<Byte>)
    ensures |s| >= 1
  {
    if v < 128 then [v] else [v % 128 + 128] + Encode(v / 128)
  }

  ghost predicate Suffix(t: seq<Byte>, s: seq<Byte>) {
    |t| <= |s| && t == s[|s| - |t|..]
  }

  /** The 64-bit reader from its k-th byte on, in units of 128^k. The tenth byte is shifted
      by 63, so only its lowest bit survives; an eleventh is an overflow. */
  function Decode64From(s: seq<Byte>, k: nat): (r: Parsed<nat>)
    ensures r.Ok? ==> |r.rest| < |s| && Suffix(r.rest, s)
    decreases |s|
  {
    if k >= 10 then Err(VarintOverflow)
    else if s == [] then Err(EndOfStream)
    else
      var low := if k == 9 then s[0] % 2 else s[0] % 128;
      if s[0] < 128 then Ok(low, s[1..])
      else match Decode64From(s[1..], k + 1)
        case Err(e) => Err(e)
        case Ok(high, rest) => Ok(low + 128 * high, rest)
  }

  function Decode64(s: seq<Byte>): (r: Parsed<nat>)
    ensures r.Ok? ==> |r.rest| < |s| && Suffix(r.rest, s)
  {
    Decode64From(s, 0)
  }

  /** The 32-bit reader from its k-th byte on, k <= 4, in units of 128^k. Bits that a continued
      fifth byte carries above bit 31 are shifted out unseen. */
  function Decode32From(s: seq<Byte>, k: nat): (r: Parsed<nat>)
    requires k <= 4
    ensures r.Ok? ==> |r.rest| < |s| && Suffix(r.rest, s)
    decreases |s|
  {
    if s == [] then Err(EndOfStream)
    else if k == 4 then
      var low := s[0] % 16;
      if s[0] >= 128 then
        match SkipSign(s[1..], 5, low >= 8)
        case Err(e) => Err(e)
        case Ok(_, rest) => Ok(low, rest)
      else if s[0] >= 16 then Err(VarintOverflow)
      else Ok(low, s[1..])
    else if s[0] < 128 then Ok(s[0], s[1..])
    else match Decode32From(s[1..], k + 1)
      case Err(e) => Err(e)
      case Ok(high, rest) => Ok(s[0] % 128 + 128 * high, rest)
  }

  /** Bytes past bit 31: zero groups, or sign extension when bit 31 is set. */
  function SkipSign(s: seq<Byte>, k: nat, negative: bool): (r: Parsed<()>)
    ensures r.Ok? ==> |r.rest| < |s| && Suffix(r.rest, s)
    decreases |s|
  {
    if s == [] then Err(EndOfStream)
    else if s[0] % 128 != 0 && (!negative || s[0] != (if 7 * k < 63 then 255 else 1)) then Err(VarintOverflow)
    else if s[0] >= 128 then SkipSign(s[1..], k + 1, negative)
    else Ok((), s[1..])
  }

  function Decode32(s: seq<Byte>): (r: Parsed<nat>)
    ensures r.Ok? ==> |r.rest| < |s| && Suffix(r.rest, s)
  {
    Decode32From(s, 0)
  }

  /** 2^(64-7k): the values that fit a 64-bit word above its first k groups. */
  function Room64(k: nat): (n: nat)
    requires k <= 9
    ensures n > 0
    decreases 9 - k
  {
    if k == 9 then 2 else 128 * Room64(k + 1)
  }

  /** 2^(32-7k). */
  function Room32(k: nat): (n: nat)
    requires k <= 4
    ensures n > 0
    decreases 4 - k
  {
    if k == 4 then 16 else 128 * Room32(k + 1)
  }

  lemma {:induction false} Rooms()
    ensures Room64(0) == TWO_64 && Room64(1) == 0x200_0000_0000_0000 && Room64(2) == 0x4_0000_0000_0000
    ensures Room64(3) == 0x800_0000_0000 && Room64(4) == 0x10_0000_0000 && Room64(5) == 0x2000_0000
    ensures Room64(6) == 0x40_0000 && Room64(7) == 0x8000 && Room64(8) == 0x100 && Room64(9) == 2
    ensures Room32(0) == TWO_32 && Room32(1) == 0x200_0000 && Room32(2) == 0x4_0000 && Room32(3) == 0x800
    ensures Room32(4) == 16
  {
  }

  /** 1 << 7k. */
  function Unit(k: nat): (p: nat)
    ensures p > 0
  {
    if k == 0 then 1 else 128 * Unit(k - 1)
  }

  lemma {:induction false} Units()
    ensures Unit(0) == 1 && Unit(1) == 0x80 && Unit(2) == 0x4000 && Unit(3) == 0x20_0000 && Unit(4) == 0x1000_0000
    ensures Unit(5) == 0x8_0000_0000 && Unit(6) == 0x400_0000_0000 && Unit(7) == 0x2_0000_0000_0000
    ensures Unit(8) == 0x100_0000_0000_0000 && Unit(9) == TWO_63
  {
    assert Unit(2) == 128 * Unit(1) && Unit(3) == 128 * Unit(2) && Unit(4) == 128 * Unit(3);
    assert Unit(5) == 128 * Unit(4) && Unit(6) == 128 * Unit(5) && Unit(7) == 128 * Unit(6);
    assert Unit(8) == 128 * Unit(7) && Unit(9) == 128 * Unit(8);
  }

  lemma {:induction false} EncodeAtMost(v: nat, k: nat)
    requires v < Unit(k) && k >= 1
    ensures |Encode(v)| <= k
  {
    if v >= 128 { EncodeAtMost(v / 128, k - 1); }
  }

  /** The 32-bit reader returns 32 bits. */
  lemma {:induction false} Decode32Range(s: seq<Byte>, k: nat)
    requires k <= 4 && Decode32From(s, k).Ok?
    ensures Decode32From(s, k).value < Room32(k)
    decreases |s|
  {
    if k == 4 {
      assert Decode32From(s, k).value == s[0] % 16;
    } else if s[0] >= 128 {
      Decode32Range(s[1..], k + 1);
      var high := Decode32From(s[1..], k + 1).value;
      assert Decode32From(s, k).value == s[0] % 128 + 128 * high;
    } else {
      assert Decode32From(s, k).value == s[0];
      assert Room32(k) >= 128 by { Rooms(); }
    }
  }

  // ----- round trips -----

  /** The first byte of a written value, and what follows it. */
  lemma {:induction false} EncodeHead(v: nat, x: seq<Byte>)
    ensures var s := Encode(v) + x;
      if v < 128 then s != [] && s[0] == v && s[1..] == x
      else s != [] && s[0] == v % 128 + 128 && s[1..] == Encode(v / 128) + x
  {
  }

  lemma {:induction false} Decode64FromInverts(v: nat, k: nat, x: seq<Byte>)
    requires k <= 9 && v < Room64(k)
    ensures Decode64From(Encode(v) + x, k) == Ok(v, x)
    decreases v
  {
    var s := Encode(v) + x;
    EncodeHead(v, x);
    if v >= 128 {
      assert s[0] % 128 == v % 128 && k < 9;
      Decode64FromInverts(v / 128, k + 1, x);
      assert v % 128 + 128 * (v / 128) == v;
    }
  }

  /** The 64-bit reader inverts the writer on every 64-bit value, whatever follows. */
  lemma {:induction false} Decode64Inverts(v: nat, x: seq<Byte>)
    requires v < TWO_64
    ensures Decode64(Encode(v) + x) == Ok(v, x)
  {
    Rooms();
    Decode64FromInverts(v, 0, x);
  }

  /** The groups of h, standing from bit 7k on, that the 32-bit reader lets pass inside a sign extension: all
      zeros or all ones, up to a one at bit 63. */
  predicate Filler(h: nat, k: nat)
    decreases 9 - k
  {
    if k >= 9 then h == 1 else h >= 128 && (h % 128 == 0 || h % 128 == 127) && Filler(h / 128, k + 1)
  }

  lemma {:induction false} SkipSignExact(h: nat, k: nat, negative: bool, x: seq<Byte>)
    requires 5 <= k <= 9 && 0 < h < Room64(k)
    ensures SkipSign(Encode(h) + x, k, negative) ==
      if negative && Filler(h, k) then Ok((), x) else Err(VarintOverflow)
    decreases h
  {
    var s := Encode(h) + x;
    EncodeHead(h, x);
    if h < 128 {
      assert s[0] == h && h % 128 == h;
    } else {
      assert k < 9;
      GroupPasses(h);
      assert h / 128 < Room64(k + 1);
      SkipSignExact(h / 128, k + 1, negative, x);
    }
  }

  /** What the reader's test of a marked group means for the number. */
  lemma {:induction false} GroupPasses(h: nat)
    requires h >= 128
    ensures var b := h % 128 + 128; b % 128 == h % 128 && (b == 255 <==> h % 128 == 127) && h / 128 > 0
  {
  }

  /** v, standing from bit 7k on, continues a set bit 31 with passing groups only. */
  predicate Extended(v: nat, k: nat)
    requires k <= 4
    decreases 4 - k
  {
    if k == 4 then v >= 128 && v % 16 >= 8 && Filler(v / 128, 5) else Extended(v / 128, k + 1)
  }

  lemma {:induction false} FifthByteExact(v: nat, x: seq<Byte>)
    requires v < Room64(4)
    ensures Decode32From(Encode(v) + x, 4) ==
      if v < 16 then Ok(v, x) else if Extended(v, 4) then Ok(v % 16, x) else Err(VarintOverflow)
  {
    var s := Encode(v) + x;
    EncodeHead(v, x);
    if v >= 128 {
      var low := v % 16;
      assert s[0] % 16 == low by { assert (v % 128 + 128) % 16 == v % 16; }
      assert v / 128 < Room64(5);
      SkipSignExact(v / 128, 5, low >= 8, x);
    }
  }

  lemma {:induction false} Decode32FromExact(v: nat, k: nat, x: seq<Byte>)
    requires k <= 4 && v < Room64(k)
    ensures Decode32From(Encode(v) + x, k) == Cut(v, Room32(k), Extended(v, k), x)
    decreases v, 4 - k
  {
    if k == 4 {
      FifthByteExact(v, x);
    } else {
      LowGroup(v, k);
      var s := Encode(v) + x;
      if v < 128 {
        assert Decode32From(s, k) == Ok(v, x) by { Decode32Next(v, k, x); }
        assert v < Room32(k);
      } else {
        var h := v / 128;
        assert h < Room64(k + 1);
        Decode32FromExact(h, k + 1, x);
        var r := Decode32From(Encode(h) + x, k + 1);
        assert Extended(v, k) == Extended(h, k + 1);
        assert Decode32From(s, k) == Joined(v % 128, r) by { Decode32Next(v, k, x); }
        LowGroupJoined(v, k, Extended(v, k), x);
      }
    }
  }

  /** A low group in front of what the reader made of the others. */
  function Joined(low: nat, r: Parsed<nat>): (t: Parsed<nat>) {
    if r.Err? then Err(r.error) else Ok(low + 128 * r.value, r.rest)
  }

  /** What is read of a number of which only some are accepted, and those cut to `room`. */
  function Cut(v: nat, room: nat, accepted: bool, x: seq<Byte>): (r: Parsed<nat>)
    requires room > 0
  {
    if v < room then Ok(v, x) else if accepted then Ok(v % room, x) else Err(VarintOverflow)
  }

  lemma {:induction false} LowGroupJoined(v: nat, k: nat, accepted: bool, x: seq<Byte>)
    requires k < 4
    ensures Joined(v % 128, Cut(v / 128, Room32(k + 1), accepted, x)) == Cut(v, Room32(k), accepted, x)
  {
    LowGroup(v, k);
  }

  lemma {:induction false} Decode32Next(v: nat, k: nat, x: seq<Byte>)
    requires k < 4
    ensures v < 128 ==> Decode32From(Encode(v) + x, k) == Ok(v, x)
    ensures v >= 128 ==>
      Decode32From(Encode(v) + x, k) == Joined(v % 128, Decode32From(Encode(v / 128) + x, k + 1))
  {
    var s := Encode(v) + x;
    EncodeHead(v, x);
    if v >= 128 { assert s[0] % 128 == v % 128 && s[0] >= 128; }
  }

  lemma {:induction false} LowGroup(v: nat, k: nat)
    requires k < 4
    ensures v % Room32(k) == v % 128 + 128 * (v / 128 % Room32(k + 1))
    ensures v < Room32(k) <==> v / 128 < Room32(k + 1)
    ensures Room32(k) >= 128
  {
    Rooms();
    var r := Room32(k + 1);
    assert Room32(k) == 128 * r;
    DivTwice(v, 128, r);
    DivParts(v, 128);
    if v / 128 < r { MulMono(128, v / 128 + 1, r); } else { MulMono(128, r, v / 128); }
  }

  predicate Uniform(g: nat) { g % 128 == 0 || g % 128 == 127 }

  /** Bits 31 and 63 are set, and each group of seven bits from bit 35 to bit 62 is all zeros or all ones. Bits 32
      to 34 do not matter: the reader shifts them out. */
  predicate SignLike(v: nat) {
    && v / TWO_63 == 1 && v / TWO_31 % 2 == 1
    && Uniform(v / 0x8_0000_0000) && Uniform(v / 0x400_0000_0000)
    && Uniform(v / 0x2_0000_0000_0000) && Uniform(v / 0x100_0000_0000_0000)
  }

  lemma {:induction false} ExtendedMeans(v: nat)
    requires v < TWO_64
    ensures Extended(v, 0) <==> SignLike(v)
  {
    var h := v / 0x1000_0000;
    ShiftBy28(v);
    assert Extended(v, 0) == Extended(v / 128, 1) == Extended(v / 128 / 128, 2) == Extended(v / 128 / 128 / 128, 3);
    assert Extended(v, 0) == Extended(h, 4);
    FillerMeans(h / 128);
    ShiftsOf(v);
  }

  lemma {:induction false} ShiftBy28(v: nat)
    ensures v / 128 / 128 / 128 / 128 == v / 0x1000_0000
    ensures v / 0x1000_0000 % 16 >= 8 <==> v / TWO_31 % 2 == 1
  {
    DivTwice(v, 128, 128);
    DivTwice(v, 0x4000, 128);
    DivTwice(v, 0x20_0000, 128);
    var h := v / 0x1000_0000;
    DivTwice(v, 0x1000_0000, 8);
    assert h % 16 >= 8 <==> h / 8 % 2 == 1;
  }

  lemma {:induction false} ShiftsOf(v: nat)
    ensures var h := v / 0x1000_0000 / 128;
      && h == v / 0x8_0000_0000 && h / 0x80 == v / 0x400_0000_0000 && h / 0x4000 == v / 0x2_0000_0000_0000
      && h / 0x20_0000 == v / 0x100_0000_0000_0000 && h / 0x1000_0000 == v / TWO_63
  {
    DivTwice(v, 0x1000_0000, 128);
    var d := 0x8_0000_0000;
    DivTwice(v, d, 0x80);
    DivTwice(v, d, 0x4000);
    DivTwice(v, d, 0x20_0000);
    DivTwice(v, d, 0x1000_0000);
  }

  lemma {:induction false} FillerMeans(h: nat)
    ensures Filler(h, 5) <==>
      h / 0x1000_0000 == 1 && Uniform(h) && Uniform(h / 0x80) && Uniform(h / 0x4000) && Uniform(h / 0x20_0000)
  {
    var a, b, c, d := h / 128, h / 0x4000, h / 0x20_0000, h / 0x1000_0000;
    assert b == a / 128 && c == b / 128 && d == c / 128 by {
      DivTwice(h, 128, 128); DivTwice(h, 0x4000, 128); DivTwice(h, 0x20_0000, 128);
    }
    assert Filler(d, 9) == (d == 1);
    assert Filler(c, 8) == (c >= 128 && Uniform(c) && Filler(d, 9));
    assert Filler(b, 7) == (b >= 128 && Uniform(b) && Filler(c, 8));
    assert Filler(a, 6) == (a >= 128 && Uniform(a) && Filler(b, 7));
  }

  /** What the 32-bit reader makes of any 64-bit value written by the writer. It accepts exactly the values below
      2^32 and those with bit 63 set that look like sign extensions of a set bit 31, and returns the low 32 bits.
      So every larger value below 2^63 is refused and every sign-extended negative 32-bit number is cut. */
  lemma {:induction false} Decode32OfEncode(v: nat, x: seq<Byte>)
    requires v < TWO_64
    ensures Decode32(Encode(v) + x) ==
      if v < TWO_32 || SignLike(v) then Ok(v % TWO_32, x) else Err(VarintOverflow)
    ensures TWO_32 <= v < TWO_63 ==> !SignLike(v)
    ensures v >= TWO_64 - TWO_31 ==> SignLike(v)
  {
    Rooms();
    Decode32FromExact(v, 0, x);
    ExtendedMeans(v);
    SignLikeRange(v);
  }

  lemma {:induction false} SignLikeRange(v: nat)
    requires v < TWO_64
    ensures v < TWO_63 ==> !SignLike(v)
    ensures v >= TWO_64 - TWO_31 ==> SignLike(v)
  {
    if v >= TWO_64 - TWO_31 {
      assert v / TWO_63 == 1 && v / TWO_31 == 0x1_FFFF_FFFF;
      assert v / 0x8_0000_0000 == 0x1FFF_FFFF && v / 0x400_0000_0000 == 0x3F_FFFF;
      assert v / 0x2_0000_0000_0000 == 0x7FFF && v / 0x100_0000_0000_0000 == 0xFF;
    }
  }

  lemma {:induction false} Decode32Small(v: nat, x: seq<Byte>)
    requires v < TWO_32
    ensures Decode32(Encode(v) + x) == Ok(v, x)
  {
    Decode32OfEncode(v, x);
    assert v % TWO_32 == v;
  }

  lemma {:induction false} Decode32Large(v: nat, x: seq<Byte>)
    requires TWO_32 <= v < TWO_63
    ensures Decode32(Encode(v) + x) == Err(VarintOverflow)
  {
    Decode32OfEncode(v, x);
  }

  /** Not only sign extensions pass: 2^63 + 2^31 is read as 2^31. */
  lemma {:induction false} ForeignSignAccepted(x: seq<Byte>)
    ensures Decode32(Encode(TWO_63 + TWO_31) + x) == Ok(TWO_31, x)
  {
    Decode32OfEncode(TWO_63 + TWO_31, x);
  }

  // ----- two's complement and ZigZag -----

  function ToU64(v: int): (u: nat)
    ensures u < TWO_64
  {
    v % TWO_64
  }

  /** Reinterpretation of the low bits of an unsigned word, 2*half values, as signed. */
  function Signed(u: nat, half: int): (v: int)
    requires half > 0
    ensures -half <= v < half
  {
    var w := u % (2 * half);
    if w < half then w else w - 2 * half
  }

  function Not64(u: nat): (r: nat)
    requires u < TWO_64
    ensures r < TWO_64
  {
    TWO_64 - 1 - u
  }

  function ZigZag(v: int): (u: nat)
    ensures u < TWO_64
  {
    var shifted := (2 * ToU64(v)) % TWO_64;
    if v < 0 then Not64(shifted) else shifted
  }

  function UnZigZag(u: nat): (v: int)
    requires u < TWO_64
    ensures -TWO_63 <= v < TWO_63
  {
    if u % 2 == 1 then Signed(Not64(u / 2), TWO_63) else Signed(u / 2, TWO_63)
  }

  lemma {:induction false} ZigZagValue(v: int)
    requires -TWO_63 <= v < TWO_63
    ensures ZigZag(v) == if v < 0 then -2 * v - 1 else 2 * v
  {
    if v < 0 {
      assert ToU64(v) == v + TWO_64;
      assert (2 * ToU64(v)) % TWO_64 == 2 * v + TWO_64;
    } else {
      assert ToU64(v) == v;
    }
  }

  lemma {:induction false} UnZigZagValue(u: nat)
    requires u < TWO_64
    ensures UnZigZag(u) == if u % 2 == 1 then -(u / 2) - 1 else u / 2
  {
    if u % 2 == 1 {
      var w := Not64(u / 2);
      assert TWO_63 <= w < TWO_64;
      assert w % (2 * TWO_63) == w;
    }
  }

  /** ZigZag is a bijection between the signed and the unsigned 64-bit numbers. */
  lemma {:induction false} ZigZagBijective(v: int, u: nat)
    requires -TWO_63 <= v < TWO_63 && u < TWO_64
    ensures UnZigZag(ZigZag(v)) == v
    ensures ZigZag(UnZigZag(u)) == u
  {
    ZigZagValue(v);
    UnZigZagValue(ZigZag(v));
    UnZigZagValue(u);
    ZigZagValue(UnZigZag(u));
  }
}
